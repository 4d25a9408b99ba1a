/** What a run of the version lifecycle may and may not do to versions that
    have left draft. Two promises of the code hold only while nobody edits a
    draft between a request's checks and its writes; for these the exact
    condition on each step is given, with a run that breaks them. */
module VersionHistory {
  import opened Wrappers
  import opened VersionTables
  import opened VersionLifecycle

  // ---------------------------------------------------------------------
  // Frozen versions
  // ---------------------------------------------------------------------

  /** Everything of a version except its state and its successor. */
  ghost predicate SameRow(t: Tables, u: Tables, v: int) {
    && v in t.versions && v in u.versions
    && u.versions[v] == t.versions[v].(state := u.versions[v].state, supersededBy := u.versions[v].supersededBy)
  }

  ghost predicate SameScripts(t: Tables, u: Tables, v: int) {
    forall name :: ((v, name) in t.scripts <==> (v, name) in u.scripts)
      && ((v, name) in t.scripts ==> u.scripts[(v, name)] == t.scripts[(v, name)])
  }

  ghost predicate SameActions(t: Tables, u: Tables, v: int) {
    forall key :: ((v, key) in t.actions <==> (v, key) in u.actions)
      && ((v, key) in t.actions ==> u.actions[(v, key)] == t.actions[(v, key)])
  }

  ghost predicate SameConditions(t: Tables, u: Tables, v: int) {
    forall c :: (OwnsCondition(t, v, c) <==> OwnsCondition(u, v, c))
      && (OwnsCondition(t, v, c) ==> u.conditions[c] == t.conditions[c])
  }

  ghost predicate Unchanged(t: Tables, u: Tables, v: int) {
    SameRow(t, u, v) && SameScripts(t, u, v) && SameActions(t, u, v) && SameConditions(t, u, v)
  }

  /** The version that a version statement writes to. */
  function VersionTarget(t: Tables, a: VersionStatement): int {
    if a.Create? then t.nextVersion else a.id
  }

  lemma DiscardSpares(t: Tables, id: int, v: int)
    requires v in t.versions && (id != v || Issued(t.versions, v))
    ensures Unchanged(t, DeleteDraft(t, id).0, v)
  {
  }

  lemma VersionStatementSparesRow(t: Tables, a: VersionStatement, v: int)
    requires TablesOk(t) && v in t.versions && (VersionTarget(t, a) != v || Issued(t.versions, v))
    ensures SameRow(t, AfterVersion(t, a), v)
    ensures VersionTarget(t, a) != v ==> AfterVersion(t, a).versions[v] == t.versions[v]
  {
  }

  /** A version is safe from a guarded statement when it is not the target, or
      is no longer a draft. */
  lemma VersionStatementSpares(t: Tables, a: VersionStatement, v: int)
    requires TablesOk(t) && v in t.versions && (VersionTarget(t, a) != v || Issued(t.versions, v))
    ensures Unchanged(t, AfterVersion(t, a), v)
    ensures VersionTarget(t, a) != v ==> AfterVersion(t, a).versions[v] == t.versions[v]
  {
    VersionStatementSparesRow(t, a, v);
    if a.Discard? {
      DiscardSpares(t, a.id, v);
    } else {
      ChildrenUntouched(t, a);
    }
  }

  lemma ChildrenUntouched(t: Tables, a: VersionStatement)
    requires !a.Discard?
    ensures var u := AfterVersion(t, a); u.scripts == t.scripts && u.actions == t.actions && u.conditions == t.conditions
  {
  }

  lemma ScriptStatementSpares(t: Tables, a: ScriptStatement, v: int)
    requires v in t.versions && (a.id != v || Issued(t.versions, v))
    ensures Unchanged(t, AfterScript(t, a), v)
  {
  }

  lemma ActionStatementSpares(t: Tables, a: ActionStatement, v: int)
    requires v in t.versions && (a.id != v || Issued(t.versions, v))
    ensures Unchanged(t, AfterAction(t, a), v)
  {
  }

  lemma ConditionStatementSpares(t: Tables, a: ConditionStatement, v: int)
    requires TablesOk(t) && v in t.versions && (a.id != v || Issued(t.versions, v))
    ensures Unchanged(t, AfterCondition(t, a), v)
  {
  }

  lemma CommitSpares(t: Tables, id: int, moduleID: int, version: string, actor: int, now: int, v: int)
    requires Issued(t.versions, v)
    ensures Unchanged(t, PublishTransaction(t, id, moduleID, version, actor, now).0, v)
  {
    if IsDraft(t, id) {
      PublishedRows(t, id, moduleID, version, actor, now);
    }
  }

  /** The step does not run an unguarded delete of a full reset on custom rows
      of the version `v`. */
  ghost predicate SparesContent(s: System, step: Step, v: int) {
    && (step == ResetScripts(v) && v in s.resets ==> forall k :: !CustomScript(s.db, v, k))
    && (step == ResetActions(v) && v in s.resets ==> forall k :: !CustomAction(s.db, v, k))
  }

  /** An unguarded delete leaves the version alone or takes rows away from it. */
  ghost predicate Shrinks(t: Tables, u: Tables, v: int) {
    && SameRow(t, u, v) && SameConditions(t, u, v)
    && (forall name :: (v, name) in u.scripts ==> (v, name) in t.scripts && u.scripts[(v, name)] == t.scripts[(v, name)])
    && (forall key :: (v, key) in u.actions ==> (v, key) in t.actions && u.actions[(v, key)] == t.actions[(v, key)])
  }

  lemma CustomScriptsLost(t: Tables, id: int, v: int)
    ensures SameScripts(t, DeleteCustomScripts(t, id), v) <==> id != v || forall k :: !CustomScript(t, v, k)
  {
  }

  lemma CustomActionsLost(t: Tables, id: int, v: int)
    ensures SameActions(t, DeleteCustomActions(t, id), v) <==> id != v || forall k :: !CustomAction(t, v, k)
  {
  }

  lemma GuardedStepSpares(s: System, step: Step, v: int)
    requires Sound(s) && Issued(s.db.versions, v) && !step.ResetScripts? && !step.ResetActions?
    ensures Unchanged(s.db, Next(s, step).db, v)
  {
    match step {
      case OnVersion(a) => VersionStatementSpares(s.db, a, v);
      case OnScript(a) => ScriptStatementSpares(s.db, a, v);
      case OnAction(a) => ActionStatementSpares(s.db, a, v);
      case OnCondition(a) => ConditionStatementSpares(s.db, a, v);
      case BeginPublish(_, _) =>
      case BeginReset(_) =>
      case CommitPublish(tx, actor, now) =>
        if tx in s.publishes {
          CommitSpares(s.db, s.publishes[tx].id, s.publishes[tx].moduleID, s.publishes[tx].version, actor, now, v);
        }
    }
  }

  /** A step changes the content of an issued version exactly when it is an
      unguarded delete that finds custom rows of that version. */
  lemma StepFreezesExactly(s: System, step: Step, v: int)
    requires Sound(s) && Issued(s.db.versions, v)
    ensures Unchanged(s.db, Next(s, step).db, v) <==> SparesContent(s, step, v)
    ensures Shrinks(s.db, Next(s, step).db, v)
  {
    if step.ResetScripts? {
      CustomScriptsLost(s.db, step.id, v);
    } else if step.ResetActions? {
      CustomActionsLost(s.db, step.id, v);
    } else {
      GuardedStepSpares(s, step, v);
    }
  }

  ghost predicate RunSparesContent(s: System, steps: seq<Step>, v: int) {
    steps == [] ||
    var front := steps[..|steps| - 1];
    RunSparesContent(s, front, v) && SparesContent(Run(s, front), steps[|steps| - 1], v)
  }

  lemma ShrinksBothWays(t: Tables, m: Tables, u: Tables, v: int)
    requires Shrinks(t, m, v) && Shrinks(m, u, v)
    ensures Shrinks(t, u, v)
    ensures Unchanged(t, u, v) <==> Unchanged(t, m, v) && Unchanged(m, u, v)
  {
  }

  /** An issued version keeps its fields, scripts, actions and conditions over a
      run if and only if no unguarded delete of the run hits custom rows of it. */
  lemma {:induction false} FrozenExactly(s: System, steps: seq<Step>, v: int)
    requires Sound(s) && Issued(s.db.versions, v)
    ensures Unchanged(s.db, Run(s, steps).db, v) <==> RunSparesContent(s, steps, v)
    ensures Shrinks(s.db, Run(s, steps).db, v)
  {
    if steps == [] {
    } else {
      var front := steps[..|steps| - 1];
      var m := Run(s, front);
      FrozenExactly(s, front, v);
      RunKeeps(s, front);
      StatesMoveForward(s, front, v);
      StepFreezesExactly(m, steps[|steps| - 1], v);
      ShrinksBothWays(s.db, m.db, Run(s, steps).db, v);
    }
  }

  // ---------------------------------------------------------------------
  // Successors
  // ---------------------------------------------------------------------

  /** The stored column: `v` names the version string of `w`, of its module. */
  predicate Names(vs: Versions, v: int, w: int) {
    && v in vs && w in vs
    && vs[v].moduleID == vs[w].moduleID
    && vs[v].supersededBy == Some(vs[w].version)
  }

  /** What the name is meant to lead to: a version published later. */
  predicate IsSuccessor(vs: Versions, v: int, w: int) {
    Names(vs, v, w) && Issued(vs, w) && vs[v].publishSeq < vs[w].publishSeq
  }

  /** Every version that names a successor has one. */
  ghost predicate SuccessorsExist(vs: Versions) {
    forall v :: v in vs && vs[v].supersededBy.Some? ==> exists w :: IsSuccessor(vs, v, w)
  }

  /** A version with this name was published after `u`. */
  predicate LeadsTo(vs: Versions, u: int, name: string, x: int) {
    && u in vs && x in vs
    && vs[x].moduleID == vs[u].moduleID && vs[x].version == name
    && Issued(vs, x) && vs[u].publishSeq < vs[x].publishSeq
  }

  /** The name under which a commit supersedes versions is the current one of
      the published draft, or leads each of them to a later publication. */
  ghost predicate NameLeads(s: System, step: Step) {
    Commits(s, step) ==>
      var p := s.publishes[step.tx];
      p.version == s.db.versions[p.id].version
      || forall u :: Supersedes(s.db, p.moduleID, p.id, u) ==> exists x :: LeadsTo(s.db.versions, u, p.version, x)
  }

  lemma CommitKeepsSuccessors(s: System, step: Step)
    requires Sound(s) && SuccessorsExist(s.db.versions)
    requires Commits(s, step) && NameLeads(s, step)
    ensures SuccessorsExist(Next(s, step).db.versions)
  {
    var p := s.publishes[step.tx];
    PublishedRows(s.db, p.id, p.moduleID, p.version, step.actor, step.now);
    var old', vs := s.db.versions, Next(s, step).db.versions;
    forall v | v in vs && vs[v].supersededBy.Some? ensures exists w :: IsSuccessor(vs, v, w) {
      if !Supersedes(s.db, p.moduleID, p.id, v) {
        var w :| IsSuccessor(old', v, w);
        assert IsSuccessor(vs, v, w);
      } else if p.version == old'[p.id].version {
        assert IsSuccessor(vs, v, p.id);
      } else {
        var x :| LeadsTo(old', v, p.version, x);
        assert IsSuccessor(vs, v, x);
      }
    }
  }

  lemma StaleCommitBreaksSuccessors(s: System, step: Step)
    requires Sound(s) && !NameLeads(s, step)
    ensures !SuccessorsExist(Next(s, step).db.versions)
  {
    var p := s.publishes[step.tx];
    PublishedRows(s.db, p.id, p.moduleID, p.version, step.actor, step.now);
    var old', vs := s.db.versions, Next(s, step).db.versions;
    var u :| Supersedes(s.db, p.moduleID, p.id, u) && forall x :: !LeadsTo(old', u, p.version, x);
    forall w ensures !IsSuccessor(vs, u, w) {
      if IsSuccessor(vs, u, w) {
        assert LeadsTo(old', u, p.version, w);
      }
    }
  }

  lemma RowsKeepSuccessors(vs: Versions, us: Versions)
    requires SuccessorsExist(vs)
    requires forall v :: v in us && us[v].supersededBy.Some? ==>
               v in vs && us[v] == vs[v].(state := us[v].state)
    requires forall w :: Issued(vs, w) ==> Issued(us, w) && us[w] == vs[w].(state := us[w].state)
    ensures SuccessorsExist(us)
  {
    forall v | v in us && us[v].supersededBy.Some? ensures exists w :: IsSuccessor(us, v, w) {
      var w :| IsSuccessor(vs, v, w);
      assert IsSuccessor(us, v, w);
    }
  }

  lemma VersionStatementKeepsIssuedRow(t: Tables, a: VersionStatement, v: int)
    requires TablesOk(t) && Issued(t.versions, v)
    ensures var us := AfterVersion(t, a).versions;
            Issued(us, v) && us[v] == t.versions[v].(state := us[v].state)
  {
  }

  lemma VersionStatementKeepsSuccessors(t: Tables, a: VersionStatement)
    requires TablesOk(t) && SuccessorsExist(t.versions)
    ensures SuccessorsExist(AfterVersion(t, a).versions)
  {
    var vs, us := t.versions, AfterVersion(t, a).versions;
    forall w | Issued(vs, w) ensures Issued(us, w) && us[w] == vs[w].(state := us[w].state) {
      VersionStatementKeepsIssuedRow(t, a, w);
    }
    assert forall v :: v in us && us[v].supersededBy.Some? ==> Issued(vs, v);
    RowsKeepSuccessors(vs, us);
  }

  lemma StepKeepsSuccessorsExactly(s: System, step: Step)
    requires Sound(s) && SuccessorsExist(s.db.versions)
    ensures SuccessorsExist(Next(s, step).db.versions) <==> NameLeads(s, step)
  {
    if step.OnVersion? {
      VersionStatementKeepsSuccessors(s.db, step.row);
    } else if !Commits(s, step) {
      VersionsUntouched(s, step);
    } else if NameLeads(s, step) {
      CommitKeepsSuccessors(s, step);
    } else {
      StaleCommitBreaksSuccessors(s, step);
    }
  }

  ghost predicate RunNameLeads(s: System, steps: seq<Step>) {
    steps == [] ||
    var front := steps[..|steps| - 1];
    RunNameLeads(s, front) && NameLeads(Run(s, front), steps[|steps| - 1])
  }

  ghost predicate SuccessorsExistThroughout(s: System, steps: seq<Step>) {
    SuccessorsExist(Run(s, steps).db.versions)
    && (steps != [] ==> SuccessorsExistThroughout(s, steps[..|steps| - 1]))
  }

  /** Superseded versions name a sibling published strictly later, at every
      point of a run, if and only if every commit that supersedes something
      does so under a name that leads on: the current one of its draft, or one
      that a later publication bears. */
  lemma {:induction false} SuccessorsExistExactly(s: System, steps: seq<Step>)
    requires Sound(s)
    ensures SuccessorsExistThroughout(s, steps) <==> SuccessorsExist(s.db.versions) && RunNameLeads(s, steps)
  {
    if steps == [] {
    } else {
      var front := steps[..|steps| - 1];
      SuccessorsExistExactly(s, front);
      RunKeeps(s, front);
      assert SuccessorsExistThroughout(s, front) ==> SuccessorsExist(Run(s, front).db.versions);
      if SuccessorsExist(Run(s, front).db.versions) {
        StepKeepsSuccessorsExactly(Run(s, front), steps[|steps| - 1]);
      }
    }
  }

  /** The commit supersedes nothing, or still finds the version name that its
      request read. */
  ghost predicate NamesCurrent(s: System, step: Step) {
    Commits(s, step) ==>
      var p := s.publishes[step.tx];
      p.version == s.db.versions[p.id].version || forall u :: !Supersedes(s.db, p.moduleID, p.id, u)
  }

  /** Where the published version is the newest one, a stale name never leads on. */
  lemma StaleNamesNeverLead(s: System, step: Step)
    requires Sound(s) && PublishedIsNewest(s.db.versions)
    ensures NameLeads(s, step) <==> NamesCurrent(s, step)
  {
    if Commits(s, step) {
      var p := s.publishes[step.tx];
      forall u, x | Supersedes(s.db, p.moduleID, p.id, u) ensures !LeadsTo(s.db.versions, u, p.version, x) {
        assert x in s.db.versions && x != u ==> Siblings(s.db.versions, u, x) || s.db.versions[x].moduleID != p.moduleID;
      }
    }
  }

  ghost predicate RunNamesCurrent(s: System, steps: seq<Step>) {
    steps == [] ||
    var front := steps[..|steps| - 1];
    RunNamesCurrent(s, front) && NamesCurrent(Run(s, front), steps[|steps| - 1])
  }

  /** As long as seed publishes find their modules without a published version,
      a name leads on exactly when it is not stale: successors exist throughout
      if and only if every superseding commit finds the name its request read. */
  lemma {:induction false} SuccessorsExistWhenNamesAreCurrent(s: System, steps: seq<Step>)
    requires Sound(s) && PublishedIsNewest(s.db.versions) && RunSeedsAlone(s, steps)
    ensures SuccessorsExistThroughout(s, steps) <==> SuccessorsExist(s.db.versions) && RunNamesCurrent(s, steps)
  {
    SuccessorsExistExactly(s, steps);
    NamesAgree(s, steps);
  }

  lemma {:induction false} NamesAgree(s: System, steps: seq<Step>)
    requires Sound(s) && PublishedIsNewest(s.db.versions) && RunSeedsAlone(s, steps)
    ensures RunNameLeads(s, steps) <==> RunNamesCurrent(s, steps)
  {
    if steps == [] {
    } else {
      var front := steps[..|steps| - 1];
      NamesAgree(s, front);
      RunKeeps(s, front);
      NewestThroughout(s, front);
      StaleNamesNeverLead(Run(s, front), steps[|steps| - 1]);
    }
  }

  /** Version strings are unique in a module, so a stored name leads to the one
      later publication that bears it. */
  lemma NamesLeadForward(vs: Versions, v: int, w: int)
    requires VersionsUnique(vs) && SuccessorsExist(vs) && Names(vs, v, w)
    ensures IsSuccessor(vs, v, w)
    ensures forall x :: Names(vs, v, x) ==> x == w
  {
    var x :| IsSuccessor(vs, v, x);
    forall y | Names(vs, v, y) ensures y == x {
      assert y != x ==> Siblings(vs, y, x);
    }
  }

  /** Following the stored names from version to version. */
  ghost predicate Chain(vs: Versions, p: seq<int>) {
    forall i, j :: 0 <= i < j < |p| && j == i + 1 ==> Names(vs, p[i], p[j])
  }

  lemma {:induction false} ChainAscends(vs: Versions, p: seq<int>, i: nat, j: nat)
    requires VersionsUnique(vs) && SuccessorsExist(vs) && Chain(vs, p) && i < j < |p|
    ensures p[i] in vs && p[j] in vs && vs[p[i]].publishSeq + (j - i) <= vs[p[j]].publishSeq
    decreases j
  {
    NamesLeadForward(vs, p[j - 1], p[j]);
    if i + 1 == j {
    } else {
      ChainAscends(vs, p, i, j - 1);
    }
  }

  /** In a run whose commits supersede under names that lead on, following the stored names visits no
      version twice and takes no more steps than there were publications. */
  lemma ChainsAreFinite(s: System, steps: seq<Step>, p: seq<int>)
    requires Sound(s) && SuccessorsExist(s.db.versions) && RunNameLeads(s, steps)
    requires Chain(Run(s, steps).db.versions, p)
    ensures |p| <= Run(s, steps).db.publications + 1
    ensures forall i, j :: 0 <= i < j < |p| ==> p[i] != p[j]
  {
    RunKeeps(s, steps);
    SuccessorsExistExactly(s, steps);
    var vs := Run(s, steps).db.versions;
    if |p| > 1 {
      ChainAscends(vs, p, 0, |p| - 1);
    }
    forall i, j | 0 <= i < j < |p| ensures p[i] != p[j] {
      ChainAscends(vs, p, i, j);
    }
  }

  // ---------------------------------------------------------------------
  // The apply script
  // ---------------------------------------------------------------------

  /** Every issued version has the script that publishing requires. */
  ghost predicate ApplyPresent(t: Tables) {
    forall v :: Issued(t.versions, v) ==> (v, APPLY) in t.scripts
  }

  predicate HasApply(t: Tables, id: int) {
    (id, APPLY) in t.scripts
  }

  /** A commit still finds the apply script its request saw, a seed publish
      finds one, and an unguarded delete takes none from an issued version. */
  ghost predicate KeepsApply(s: System, step: Step) {
    && (Commits(s, step) ==> HasApply(s.db, s.publishes[step.tx].id))
    && (step.OnVersion? && step.row.SeedPublish? && IsDraft(s.db, step.row.id) ==> HasApply(s.db, step.row.id))
    && (step.ResetScripts? && step.id in s.resets && Issued(s.db.versions, step.id)
        ==> !CustomScript(s.db, step.id, (step.id, APPLY)))
  }

  /** Statements on versions issue nothing but what a seed publish does. */
  lemma VersionStatementKeepsApplyExactly(s: System, a: VersionStatement)
    requires TablesOk(s.db) && ApplyPresent(s.db)
    ensures ApplyPresent(AfterVersion(s.db, a)) <==> KeepsApply(s, OnVersion(a))
  {
    var t, u := s.db, AfterVersion(s.db, a);
    if a.SeedPublish? && IsDraft(t, a.id) {
      assert Issued(u.versions, a.id);
    }
  }

  lemma CommitKeepsApplyExactly(t: Tables, id: int, moduleID: int, version: string, actor: int, now: int)
    requires ApplyPresent(t) && IsDraft(t, id)
    ensures ApplyPresent(PublishTransaction(t, id, moduleID, version, actor, now).0) <==> HasApply(t, id)
  {
    PublishedRows(t, id, moduleID, version, actor, now);
    var u := PublishTransaction(t, id, moduleID, version, actor, now).0;
    assert Issued(u.versions, id);
  }

  /** Guarded statements on scripts leave issued versions alone. */
  lemma ScriptStatementKeepsApply(t: Tables, a: ScriptStatement)
    requires ApplyPresent(t)
    ensures ApplyPresent(AfterScript(t, a))
  {
    forall v | Issued(t.versions, v) ensures (v, APPLY) in AfterScript(t, a).scripts {
      ScriptStatementSpares(t, a, v);
    }
  }

  lemma StepKeepsApplyExactly(s: System, step: Step)
    requires Sound(s) && ApplyPresent(s.db)
    ensures ApplyPresent(Next(s, step).db) <==> KeepsApply(s, step)
  {
    if step.OnVersion? {
      VersionStatementKeepsApplyExactly(s, step.row);
    } else if Commits(s, step) {
      var p := s.publishes[step.tx];
      CommitKeepsApplyExactly(s.db, p.id, p.moduleID, p.version, step.actor, step.now);
    } else {
      VersionsUntouched(s, step);
      if step.OnScript? {
        ScriptStatementKeepsApply(s.db, step.script);
      } else if step.ResetScripts? {
        ResetKeepsApplyExactly(s, step.id);
      } else {
        ScriptsUntouched(s, step);
      }
    }
  }

  lemma ResetKeepsApplyExactly(s: System, id: int)
    requires ApplyPresent(s.db)
    ensures ApplyPresent(Next(s, ResetScripts(id)).db) <==> KeepsApply(s, ResetScripts(id))
  {
    if id in s.resets && Issued(s.db.versions, id) {
      assert Issued(DeleteCustomScripts(s.db, id).versions, id);
    }
  }

  lemma ScriptsUntouched(s: System, step: Step)
    requires !step.OnVersion? && !step.OnScript? && !step.ResetScripts?
    ensures Next(s, step).db.scripts == s.db.scripts
  {
  }

  ghost predicate RunKeepsApply(s: System, steps: seq<Step>) {
    steps == [] ||
    var front := steps[..|steps| - 1];
    RunKeepsApply(s, front) && KeepsApply(Run(s, front), steps[|steps| - 1])
  }

  ghost predicate ApplyPresentThroughout(s: System, steps: seq<Step>) {
    ApplyPresent(Run(s, steps).db)
    && (steps != [] ==> ApplyPresentThroughout(s, steps[..|steps| - 1]))
  }

  /** Issued versions have their apply script at every point of a run if and
      only if every commit and seed publish finds it and no reset takes it away. */
  lemma {:induction false} ApplyPresentExactly(s: System, steps: seq<Step>)
    requires Sound(s)
    ensures ApplyPresentThroughout(s, steps) <==> ApplyPresent(s.db) && RunKeepsApply(s, steps)
  {
    if steps == [] {
    } else {
      var front := steps[..|steps| - 1];
      ApplyPresentExactly(s, front);
      RunKeeps(s, front);
      assert ApplyPresentThroughout(s, front) ==> ApplyPresent(Run(s, front).db);
      if ApplyPresent(Run(s, front).db) {
        StepKeepsApplyExactly(Run(s, front), steps[|steps| - 1]);
      }
    }
  }

  // ---------------------------------------------------------------------
  // Runs that break the two promises
  // ---------------------------------------------------------------------

  lemma RunStep(s: System, steps: seq<Step>, step: Step)
    ensures Run(s, steps + [step]) == Next(Run(s, steps), step)
  {
  }

  /** A draft named `a` is renamed to `b` after its publish request read it. */
  lemma RenamedWhilePending(moduleID: int, a: string, b: string, fields: Fields, script: Script) returns (steps: seq<Step>)
    requires a != b
    ensures var r := Run(START, steps);
            && r.db.versions == map[0 := VersionRow(moduleID, b, Draft, fields, MATCH_ALL, 0, None, None, 0)]
            && r.db.nextVersion == 1 && r.publishes == map[0 := Pending(0, moduleID, a)]
  {
    var s0 := [OnVersion(Create(moduleID, a, fields))];
    RunStep(START, [], s0[0]);
    assert s0 == [] + [s0[0]];
    var s1 := s0 + [OnScript(PutScript(0, APPLY, script))];
    RunStep(START, s0, OnScript(PutScript(0, APPLY, script)));
    var s2 := s1 + [BeginPublish(0, 0)];
    RunStep(START, s1, BeginPublish(0, 0));
    steps := s2 + [OnVersion(Edit(0, b, fields))];
    RunStep(START, s2, OnVersion(Edit(0, b, fields)));
  }

  /** Another draft takes the name `a`. */
  lemma NameTaken(moduleID: int, a: string, b: string, fields: Fields, script: Script) returns (steps: seq<Step>)
    requires a != b
    ensures var r := Run(START, steps);
            && r.db.versions == map[0 := VersionRow(moduleID, b, Draft, fields, MATCH_ALL, 0, None, None, 0),
                                    1 := VersionRow(moduleID, a, Draft, fields, MATCH_ALL, 0, None, None, 0)]
            && MayPublish(r.db, 1) && r.publishes == map[0 := Pending(0, moduleID, a)]
  {
    var s0 := RenamedWhilePending(moduleID, a, b, fields, script);
    assert !VersionTaken(Run(START, s0).db, 1, moduleID, a);
    var s1 := s0 + [OnVersion(Create(moduleID, a, fields))];
    RunStep(START, s0, OnVersion(Create(moduleID, a, fields)));
    steps := s1 + [OnScript(PutScript(1, APPLY, script))];
    RunStep(START, s1, OnScript(PutScript(1, APPLY, script)));
  }

  /** It is published. */
  lemma NameTakenAndPublished(moduleID: int, a: string, b: string, fields: Fields, script: Script) returns (steps: seq<Step>)
    requires a != b
    ensures var r := Run(START, steps);
            && IsPublished(r.db.versions, 1) && r.db.versions[1].moduleID == moduleID && r.db.versions[1].version == a
            && IsDraft(r.db, 0) && r.db.versions[0].version == b && r.publishes == map[0 := Pending(0, moduleID, a)]
  {
    var s0 := NameTaken(moduleID, a, b, fields, script);
    var s1 := s0 + [BeginPublish(1, 1)];
    RunStep(START, s0, BeginPublish(1, 1));
    steps := s1 + [CommitPublish(1, 0, 0)];
    RunStep(START, s1, CommitPublish(1, 0, 0));
    PublishedRows(Run(START, s1).db, 1, moduleID, a, 0, 0);
  }

  /** Then the first request commits: the published version is superseded
      under its own name, and following the stored names goes round in a ring. */
  lemma RenameRace(moduleID: int, a: string, b: string, fields: Fields, script: Script) returns (steps: seq<Step>, v: int)
    requires a != b
    ensures var vs := Run(START, steps).db.versions;
            && v in vs && vs[v].state == Superseded
            && Names(vs, v, v) && Chain(vs, [v, v])
            && !SuccessorsExist(vs) && !RunNameLeads(START, steps)
  {
    var front := NameTakenAndPublished(moduleID, a, b, fields, script);
    steps, v := front + [CommitPublish(0, 0, 0)], 1;
    RunStep(START, front, CommitPublish(0, 0, 0));
    PublishedRows(Run(START, front).db, 0, moduleID, a, 0, 0);
    RingHasNoSuccessors(steps, v);
  }

  lemma RingHasNoSuccessors(steps: seq<Step>, v: int)
    requires Names(Run(START, steps).db.versions, v, v)
    ensures !SuccessorsExist(Run(START, steps).db.versions) && !RunNameLeads(START, steps)
  {
    RunKeeps(START, steps);
    SuccessorsExistExactly(START, steps);
    if SuccessorsExist(Run(START, steps).db.versions) {
      NamesLeadForward(Run(START, steps).db.versions, v, v);
    }
  }

  /** A reset and a publish request have both seen the same draft. */
  lemma ResetWhilePending(moduleID: int, version: string, fields: Fields, script: Script) returns (steps: seq<Step>)
    ensures var r := Run(START, steps);
            && IsDraft(r.db, 0) && r.db.versions[0].moduleID == moduleID && r.db.versions[0].version == version
            && r.db.scripts == map[(0, APPLY) := script]
            && r.publishes == map[0 := Pending(0, moduleID, version)] && r.resets == {0}
  {
    var s0 := [OnVersion(Create(moduleID, version, fields))];
    RunStep(START, [], s0[0]);
    assert s0 == [] + [s0[0]];
    var s1 := s0 + [OnScript(PutScript(0, APPLY, script))];
    RunStep(START, s0, OnScript(PutScript(0, APPLY, script)));
    var s2 := s1 + [BeginReset(0)];
    RunStep(START, s1, BeginReset(0));
    steps := s2 + [BeginPublish(0, 0)];
    RunStep(START, s2, BeginPublish(0, 0));
  }

  /** A full reset that saw a draft deletes custom scripts after the draft was
      published: the published version loses its apply script. */
  lemma ResetRace(moduleID: int, version: string, fields: Fields, script: Script) returns (steps: seq<Step>, v: int)
    requires script.origin == CUSTOM
    ensures var t := Run(START, steps).db;
            IsPublished(t.versions, v) && (v, APPLY) !in t.scripts && !ApplyPresent(t)
  {
    var front := ResetWhilePending(moduleID, version, fields, script);
    var r := Run(START, front);
    RunStep(START, front, CommitPublish(0, 0, 0));
    PublishedRows(r.db, 0, moduleID, version, 0, 0);
    var published := front + [CommitPublish(0, 0, 0)];
    assert CustomScript(Run(START, published).db, 0, (0, APPLY));
    steps, v := published + [ResetScripts(0)], 0;
    RunStep(START, published, ResetScripts(0));
    assert Issued(Run(START, steps).db.versions, 0);
  }

  // ---------------------------------------------------------------------
  // What a statement touches
  // ---------------------------------------------------------------------

  /** The version that a step other than a publish request writes to. */
  function TargetOf(s: System, step: Step): int
    requires !step.BeginPublish? && !step.CommitPublish?
  {
    match step
    case OnVersion(a) => VersionTarget(s.db, a)
    case OnScript(a) => a.id
    case OnAction(a) => a.id
    case OnCondition(a) => a.id
    case BeginReset(id) => id
    case ResetScripts(id) => id
    case ResetActions(id) => id
  }

  /** A step changes nothing of any version but its own, drafts included. */
  lemma StepsAreLocal(s: System, step: Step, v: int)
    requires Sound(s) && v in s.db.versions
    requires !step.BeginPublish? && !step.CommitPublish? && TargetOf(s, step) != v
    ensures v in Next(s, step).db.versions && Next(s, step).db.versions[v] == s.db.versions[v]
    ensures Unchanged(s.db, Next(s, step).db, v)
  {
    match step {
      case OnVersion(a) => VersionStatementSpares(s.db, a, v);
      case OnScript(a) => ScriptStatementSpares(s.db, a, v);
      case OnAction(a) => ActionStatementSpares(s.db, a, v);
      case OnCondition(a) => ConditionStatementSpares(s.db, a, v);
      case BeginReset(_) =>
      case ResetScripts(id) => CustomScriptsLost(s.db, id, v);
      case ResetActions(id) => CustomActionsLost(s.db, id, v);
    }
    if !step.OnVersion? {
      VersionsUntouched(s, step);
    }
  }

  /** Renaming a script to a free name and back restores the tables. */
  lemma RenameRoundTrip(t: Tables, id: int, a: string, b: string)
    requires IsDraft(t, id) && (id, a) in t.scripts && (id, b) !in t.scripts
    ensures var there := RenameScript(t, id, a, b);
            there.1 == Rows(1) && RenameScript(there.0, id, b, a) == (t, Rows(1))
  {
    var there := RenameScript(t, id, a, b).0;
    assert RenameScript(there, id, b, a).0.scripts == t.scripts;
  }

  /** An upsert is remembered in full, except that a row keeps the sequence
      number of its first insertion; a delete takes it away again. */
  lemma UpsertReadsBack(t: Tables, id: int, name: string, first: Script, second: Script)
    requires IsDraft(t, id) && (id, name) !in t.scripts
    ensures var once := UpsertScript(t, id, name, first).0;
            var twice := UpsertScript(once, id, name, second).0;
            && once.scripts[(id, name)] == first
            && twice.scripts[(id, name)] == second.(seqNo := first.seqNo)
            && DeleteScript(twice, id, name) == (t, Rows(1))
  {
    var twice := UpsertScript(UpsertScript(t, id, name, first).0, id, name, second).0;
    assert DeleteScript(twice, id, name).0.scripts == t.scripts;
  }

  /** The same for actions. */
  lemma ActionsReadBack(t: Tables, id: int, key: string, first: Action, second: Action)
    requires IsDraft(t, id) && (id, key) !in t.actions
    ensures var once := UpsertAction(t, id, key, first).0;
            var twice := UpsertAction(once, id, key, second).0;
            && once.actions[(id, key)] == first
            && twice.actions[(id, key)] == second.(seqNo := first.seqNo)
            && DeleteAction(twice, id, key) == (t, Rows(1))
  {
    var twice := UpsertAction(UpsertAction(t, id, key, first).0, id, key, second).0;
    assert DeleteAction(twice, id, key).0.actions == t.actions;
  }

  /** A condition keeps its place when it is edited, no second one may take the
      place, and deleting it restores the tables but for its spent row ID. */
  lemma ConditionsReadBack(t: Tables, id: int, first: Test, second: Test, seqNo: int)
    requires ChildrenOk(t) && IsDraft(t, id) && !SeqTaken(t, id, seqNo)
    ensures var c := t.nextCondition;
            var added := AddCondition(t, id, first, seqNo).0;
            var edited := UpdateCondition(added, c, id, second).0;
            && edited.conditions[c] == ConditionRow(id, second, seqNo)
            && AddCondition(edited, id, first, seqNo) == (edited, UniqueViolation)
            && DeleteCondition(edited, c, id) == (t.(nextCondition := c + 1), Rows(1))
  {
    var c := t.nextCondition;
    var edited := UpdateCondition(AddCondition(t, id, first, seqNo).0, c, id, second).0;
    assert c in edited.conditions && edited.conditions[c].seqNo == seqNo;
    assert DeleteCondition(edited, c, id).0.conditions == t.conditions;
  }
}
