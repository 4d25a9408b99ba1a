/** The statements as they run: an object that holds the tables and changes
    them in place, proved against the functions of `VersionTables`. */
module VersionStore {
  import opened Wrappers
  import opened VersionTables
  import L = VersionLifecycle
  import S = VersionSeeding

  datatype PublishResult = Done | NoSuchVersion | NotDraft | RequiresApplyScript

  class Store {
    var versions: map<int, VersionRow>
    var scripts: map<(int, string), Script>
    var actions: map<(int, string), Action>
    var conditions: map<int, ConditionRow>
    var nextVersion: int
    var nextCondition: int
    var publications: nat

    function Snapshot(): Tables
      reads this
    {
      Tables(versions, scripts, actions, conditions, nextVersion, nextCondition, publications)
    }

    /** The tables are in order: version names are unique in a module, rows and
        their children fit. */
    ghost predicate Consistent()
      reads this
    {
      L.TablesOk(Snapshot())
    }

    /** In order, and no module has two published versions. */
    ghost predicate Valid()
      reads this
    {
      Consistent() && L.AtMostOnePublished(Snapshot())
    }

    constructor ()
      ensures Valid() && Snapshot() == EMPTY
    {
      versions, scripts, actions, conditions := map[], map[], map[], map[];
      nextVersion, nextCondition, publications := 0, 0, 0;
    }

    predicate HoldsDraft(id: int)
      reads this
    {
      id in versions && versions[id].state == Draft
    }

    method CreatePolicyModuleVersion(moduleID: int, version: string, fields: Fields) returns (e: Effect)
      requires Consistent()
      modifies this
      ensures Consistent() && (old(Valid()) ==> Valid())
      ensures (Snapshot(), e) == CreateDraft(old(Snapshot()), moduleID, version, fields)
    {
      L.VersionStatementKeeps(Snapshot(), L.Create(moduleID, version, fields));
      if L.AtMostOnePublished(Snapshot()) {
        L.VersionStatementKeepsOneExactly(Snapshot(), L.Create(moduleID, version, fields));
      }
      if VersionTaken(Snapshot(), nextVersion, moduleID, version) {
        return UniqueViolation;
      }
      versions := versions[nextVersion := VersionRow(moduleID, version, Draft, fields, MATCH_ALL, 0, None, None, 0)];
      nextVersion := nextVersion + 1;
      return Rows(1);
    }

    method UpdatePolicyModuleVersionDraft(id: int, version: string, fields: Fields) returns (e: Effect)
      requires Consistent()
      modifies this
      ensures Consistent() && (old(Valid()) ==> Valid())
      ensures (Snapshot(), e) == UpdateDraft(old(Snapshot()), id, version, fields)
    {
      L.VersionStatementKeeps(Snapshot(), L.Edit(id, version, fields));
      if L.AtMostOnePublished(Snapshot()) {
        L.VersionStatementKeepsOneExactly(Snapshot(), L.Edit(id, version, fields));
      }
      if !HoldsDraft(id) {
        return Rows(0);
      }
      if VersionTaken(Snapshot(), id, versions[id].moduleID, version) {
        return UniqueViolation;
      }
      versions := versions[id := versions[id].(version := version, fields := fields)];
      return Rows(1);
    }

    method UpdateVersionConditionsMatchMode(id: int, mode: string) returns (e: Effect)
      requires Consistent()
      modifies this
      ensures Consistent() && (old(Valid()) ==> Valid())
      ensures (Snapshot(), e) == SetMatchMode(old(Snapshot()), id, mode)
    {
      L.VersionStatementKeeps(Snapshot(), L.Match(id, mode));
      if L.AtMostOnePublished(Snapshot()) {
        L.VersionStatementKeepsOneExactly(Snapshot(), L.Match(id, mode));
      }
      if !HoldsDraft(id) {
        return Rows(0);
      }
      versions := versions[id := versions[id].(matchMode := mode)];
      return Rows(1);
    }

    /** ON DELETE CASCADE removes the child rows one by one. */
    method DeleteDraftModuleVersion(id: int) returns (e: Effect)
      requires Consistent()
      modifies this
      ensures Consistent() && (old(Valid()) ==> Valid())
      ensures (Snapshot(), e) == DeleteDraft(old(Snapshot()), id)
    {
      L.VersionStatementKeeps(Snapshot(), L.Discard(id));
      if L.AtMostOnePublished(Snapshot()) {
        L.VersionStatementKeepsOneExactly(Snapshot(), L.Discard(id));
      }
      if !HoldsDraft(id) {
        return Rows(0);
      }
      versions := versions - {id};
      DeleteChildren(id);
      return Rows(1);
    }

    method DeleteChildren(id: int)
      modifies this
      ensures Snapshot() == old(Snapshot()).(
                scripts := map k | k in old(scripts) && k.0 != id :: old(scripts)[k],
                actions := map k | k in old(actions) && k.0 != id :: old(actions)[k],
                conditions := map c | c in old(conditions) && old(conditions)[c].versionID != id :: old(conditions)[c])
    {
      DeleteScripts(set k | k in scripts && k.0 == id);
      DeleteActions(set k | k in actions && k.0 == id);
      DeleteConditions(set c | c in conditions && conditions[c].versionID == id);
      assert scripts == map k | k in old(scripts) && k.0 != id :: old(scripts)[k];
      assert actions == map k | k in old(actions) && k.0 != id :: old(actions)[k];
      assert conditions == map c | c in old(conditions) && old(conditions)[c].versionID != id :: old(conditions)[c];
    }

    method DeleteScripts(keys: set<(int, string)>)
      modifies this
      ensures Snapshot() == old(Snapshot()).(scripts := old(scripts) - keys)
    {
      var doomed := keys;
      while doomed != {}
        invariant doomed <= keys
        invariant Snapshot() == old(Snapshot()).(scripts := old(scripts) - (keys - doomed))
        decreases doomed
      {
        var k := NextKey(doomed);
        scripts := scripts - {k};
        doomed := doomed - {k};
      }
    }

    method DeleteActions(keys: set<(int, string)>)
      modifies this
      ensures Snapshot() == old(Snapshot()).(actions := old(actions) - keys)
    {
      var doomed := keys;
      while doomed != {}
        invariant doomed <= keys
        invariant Snapshot() == old(Snapshot()).(actions := old(actions) - (keys - doomed))
        decreases doomed
      {
        var k := NextKey(doomed);
        actions := actions - {k};
        doomed := doomed - {k};
      }
    }

    method DeleteConditions(keys: set<int>)
      modifies this
      ensures Snapshot() == old(Snapshot()).(conditions := old(conditions) - keys)
    {
      var doomed := keys;
      while doomed != {}
        invariant doomed <= keys
        invariant Snapshot() == old(Snapshot()).(conditions := old(conditions) - (keys - doomed))
        decreases doomed
      {
        var c := NextKey(doomed);
        conditions := conditions - {c};
        doomed := doomed - {c};
      }
    }

    method RevokeModuleVersion(id: int) returns (e: Effect)
      requires Consistent()
      modifies this
      ensures Consistent() && (old(Valid()) ==> Valid())
      ensures (Snapshot(), e) == Revoke(old(Snapshot()), id)
      ensures e == Rows(1) <==>
                id in old(versions) && (old(versions)[id].state == Published || old(versions)[id].state == Superseded)
      ensures e == Rows(1) ==> versions == old(versions)[id := old(versions)[id].(state := Revoked)]
      ensures e != Rows(1) ==> Snapshot() == old(Snapshot())
    {
      L.VersionStatementKeeps(Snapshot(), L.RevokeVersion(id));
      if L.AtMostOnePublished(Snapshot()) {
        L.VersionStatementKeepsOneExactly(Snapshot(), L.RevokeVersion(id));
      }
      if id in versions && (versions[id].state == Published || versions[id].state == Superseded) {
        versions := versions[id := versions[id].(state := Revoked)];
        return Rows(1);
      }
      return Rows(0);
    }

    /** By itself the statement keeps one published version exactly when the
        module has no other one. */
    method PublishModuleVersion(id: int, actor: Option<int>, now: int) returns (e: Effect)
      requires Consistent()
      modifies this
      ensures Consistent()
      ensures (Snapshot(), e) == PublishRow(old(Snapshot()), id, actor, now)
      ensures old(Valid()) && e == Rows(1) ==>
                (Valid() <==> forall u :: !Supersedes(old(Snapshot()), old(versions)[id].moduleID, id, u))
    {
      ghost var was := Snapshot();
      if !HoldsDraft(id) {
        return Rows(0);
      }
      publications := publications + 1;
      versions := versions[id := versions[id].(state := Published, publishedAt := now, publishedBy := actor,
                                               publishSeq := publications)];
      L.RowChangeKeeps(was, id, versions[id], publications);
      if L.AtMostOnePublished(was) {
        L.PublishKeepsOneExactly(was, id, actor, now);
      }
      return Rows(1);
    }

    /** One row after the other; the guard of a row does not depend on the others. */
    method SupersedeCurrentPublishedVersion(version: string, moduleID: int, exclude: int)
      requires Consistent()
      modifies this
      ensures Consistent()
      ensures Snapshot() == SupersedePublished(old(Snapshot()), moduleID, exclude, version)
    {
      ghost var was, target := Snapshot(), SupersedePublished(Snapshot(), moduleID, exclude, version).versions;
      var todo: set<int> := versions.Keys;
      while todo != {}
        invariant Snapshot() == was.(versions := versions)
        invariant todo <= versions.Keys == was.versions.Keys
        invariant forall v :: v in versions ==> versions[v] == if v in todo then was.versions[v] else target[v]
        decreases todo
      {
        var id := NextKey(todo);
        todo := todo - {id};
        if versions[id].moduleID == moduleID && versions[id].state == Published && id != exclude {
          versions := versions[id := versions[id].(state := Superseded, supersededBy := Some(version))];
        }
      }
      assert versions == target;
      L.SupersedeKeeps(was, moduleID, exclude, version);
    }

    /** Publish first, then supersede; a lost race leaves the transaction
        without a change. */
    method PublishInTransaction(id: int, moduleID: int, version: string, actor: int, now: int) returns (e: Effect)
      requires Valid() && (id in versions ==> versions[id].moduleID == moduleID)
      modifies this
      ensures Valid()
      ensures (Snapshot(), e) == PublishTransaction(old(Snapshot()), id, moduleID, version, actor, now)
    {
      if IsDraft(Snapshot(), id) {
        L.TransactionKeepsOne(Snapshot(), id, version, actor, now);
      }
      e := PublishModuleVersion(id, Some(actor), now);
      if e == Rows(0) {
        return;
      }
      SupersedeCurrentPublishedVersion(version, moduleID, id);
    }

    /** The whole request with nothing in between: its checks, in their order,
        then the transaction, which then cannot lose. */
    method Publish(id: int, actor: int, now: int) returns (r: PublishResult)
      requires Valid()
      modifies this
      ensures Valid()
      ensures r == Done <==> L.MayPublish(old(Snapshot()), id)
      ensures r == NoSuchVersion <==> id !in old(versions)
      ensures r == NotDraft <==> id in old(versions) && old(versions)[id].state != Draft
      ensures r == RequiresApplyScript <==>
                id in old(versions) && old(versions)[id].state == Draft && (id, "apply") !in old(scripts)
      ensures r != Done ==> Snapshot() == old(Snapshot())
      ensures r == Done ==>
                var row := old(versions)[id];
                Snapshot() == PublishTransaction(old(Snapshot()), id, row.moduleID, row.version, actor, now).0
    {
      if id !in versions {
        return NoSuchVersion;
      }
      var cur := versions[id];
      if cur.state != Draft {
        return NotDraft;
      }
      if (id, L.APPLY) !in scripts {
        return RequiresApplyScript;
      }
      var e := PublishInTransaction(id, cur.moduleID, cur.version, actor, now);
      if e == Rows(0) {
        return NotDraft;
      }
      return Done;
    }

    method UpsertModuleScriptGuarded(id: int, name: string, s: Script) returns (e: Effect)
      requires Consistent()
      modifies this
      ensures Consistent() && (old(Valid()) ==> Valid())
      ensures (Snapshot(), e) == UpsertScript(old(Snapshot()), id, name, s)
    {
      L.ScriptStatementKeeps(Snapshot(), L.PutScript(id, name, s));
      if !HoldsDraft(id) {
        return Rows(0);
      }
      if (id, name) in scripts {
        scripts := scripts[(id, name) := scripts[(id, name)].(language := s.language, source := s.source, origin := s.origin)];
      } else {
        scripts := scripts[(id, name) := s];
      }
      return Rows(1);
    }

    method RenameModuleScriptGuarded(id: int, oldName: string, newName: string) returns (e: Effect)
      requires Consistent()
      modifies this
      ensures Consistent() && (old(Valid()) ==> Valid())
      ensures (Snapshot(), e) == RenameScript(old(Snapshot()), id, oldName, newName)
    {
      L.ScriptStatementKeeps(Snapshot(), L.MoveScript(id, oldName, newName));
      if !HoldsDraft(id) || (id, oldName) !in scripts {
        return Rows(0);
      }
      if newName != oldName && (id, newName) in scripts {
        return UniqueViolation;
      }
      var row := scripts[(id, oldName)];
      scripts := scripts - {(id, oldName)};
      scripts := scripts[(id, newName) := row];
      return Rows(1);
    }

    method DeleteModuleScriptGuarded(id: int, name: string) returns (e: Effect)
      requires Consistent()
      modifies this
      ensures Consistent() && (old(Valid()) ==> Valid())
      ensures (Snapshot(), e) == DeleteScript(old(Snapshot()), id, name)
    {
      L.ScriptStatementKeeps(Snapshot(), L.DropScript(id, name));
      if !HoldsDraft(id) || (id, name) !in scripts {
        return Rows(0);
      }
      scripts := scripts - {(id, name)};
      return Rows(1);
    }

    method UpsertModuleActionGuarded(id: int, key: string, a: Action) returns (e: Effect)
      requires Consistent()
      modifies this
      ensures Consistent() && (old(Valid()) ==> Valid())
      ensures (Snapshot(), e) == UpsertAction(old(Snapshot()), id, key, a)
    {
      L.ActionStatementKeeps(Snapshot(), L.PutAction(id, key, a));
      if !HoldsDraft(id) {
        return Rows(0);
      }
      if (id, key) in actions {
        actions := actions[(id, key) := a.(seqNo := actions[(id, key)].seqNo)];
      } else {
        actions := actions[(id, key) := a];
      }
      return Rows(1);
    }

    method DeleteModuleActionGuarded(id: int, key: string) returns (e: Effect)
      requires Consistent()
      modifies this
      ensures Consistent() && (old(Valid()) ==> Valid())
      ensures (Snapshot(), e) == DeleteAction(old(Snapshot()), id, key)
    {
      L.ActionStatementKeeps(Snapshot(), L.DropAction(id, key));
      if !HoldsDraft(id) || (id, key) !in actions {
        return Rows(0);
      }
      actions := actions - {(id, key)};
      return Rows(1);
    }

    method CreateVersionConditionGuarded(id: int, test: Test, seqNo: int) returns (e: Effect)
      requires Consistent()
      modifies this
      ensures Consistent() && (old(Valid()) ==> Valid())
      ensures (Snapshot(), e) == AddCondition(old(Snapshot()), id, test, seqNo)
    {
      L.ConditionStatementKeeps(Snapshot(), L.PutCondition(id, test, seqNo));
      if !HoldsDraft(id) {
        return Rows(0);
      }
      if SeqTaken(Snapshot(), id, seqNo) {
        return UniqueViolation;
      }
      conditions := conditions[nextCondition := ConditionRow(id, test, seqNo)];
      nextCondition := nextCondition + 1;
      return Rows(1);
    }

    method UpdateVersionConditionGuarded(c: int, id: int, test: Test) returns (e: Effect)
      requires Consistent()
      modifies this
      ensures Consistent() && (old(Valid()) ==> Valid())
      ensures (Snapshot(), e) == UpdateCondition(old(Snapshot()), c, id, test)
    {
      L.ConditionStatementKeeps(Snapshot(), L.EditCondition(id, c, test));
      if !HoldsDraft(id) || c !in conditions || conditions[c].versionID != id {
        return Rows(0);
      }
      conditions := conditions[c := conditions[c].(test := test)];
      return Rows(1);
    }

    method DeleteVersionConditionGuarded(c: int, id: int) returns (e: Effect)
      requires Consistent()
      modifies this
      ensures Consistent() && (old(Valid()) ==> Valid())
      ensures (Snapshot(), e) == DeleteCondition(old(Snapshot()), c, id)
    {
      L.ConditionStatementKeeps(Snapshot(), L.DropCondition(id, c));
      if !HoldsDraft(id) || c !in conditions || conditions[c].versionID != id {
        return Rows(0);
      }
      conditions := conditions - {c};
      return Rows(1);
    }

    method DeleteCustomScriptsForVersion(id: int)
      requires Consistent()
      modifies this
      ensures Consistent() && (old(Valid()) ==> Valid())
      ensures Snapshot() == DeleteCustomScripts(old(Snapshot()), id)
    {
      L.CustomDeletesKeep(Snapshot(), id);
      DeleteScripts(set k | k in scripts && k.0 == id && scripts[k].origin == CUSTOM);
    }

    method DeleteCustomActionsForVersion(id: int)
      requires Consistent()
      modifies this
      ensures Consistent() && (old(Valid()) ==> Valid())
      ensures Snapshot() == DeleteCustomActions(old(Snapshot()), id)
    {
      L.CustomDeletesKeep(Snapshot(), id);
      DeleteActions(set k | k in actions && k.0 == id && actions[k].origin == CUSTOM);
    }

    /** SELECT ... ORDER BY published_at DESC LIMIT 1; ties are broken arbitrarily,
        and as only one version can be published there are none. */
    method GetLatestPublishedVersion(moduleID: int) returns (r: Option<int>)
      requires Valid()
      ensures r.Some? ==> L.IsLatestPublished(Snapshot(), moduleID, r.value)
      ensures forall v :: L.IsPublished(versions, v) && versions[v].moduleID == moduleID ==> r == Some(v)
    {
      r := None;
      var todo: set<int> := versions.Keys;
      while todo != {}
        invariant todo <= versions.Keys
        invariant r.Some? ==> L.IsPublished(versions, r.value) && versions[r.value].moduleID == moduleID
        invariant forall v :: L.IsPublished(versions, v) && versions[v].moduleID == moduleID && v !in todo
                    ==> r.Some? && versions[v].publishedAt <= versions[r.value].publishedAt
        decreases todo
      {
        var v := NextKey(todo);
        todo := todo - {v};
        if versions[v].state == Published && versions[v].moduleID == moduleID {
          if r.None? || versions[r.value].publishedAt <= versions[v].publishedAt {
            r := Some(v);
          }
        }
      }
      forall v | L.IsPublished(versions, v) && versions[v].moduleID == moduleID ensures r == Some(v) {
        L.PublishedIsUnique(Snapshot(), r.value, v);
      }
    }

    method UpsertScripts(id: int, rows: seq<(string, Script)>)
      requires Consistent()
      modifies this
      ensures Consistent() && Snapshot() == S.PutScripts(old(Snapshot()), id, rows)
    {
      for i := 0 to |rows|
        invariant Consistent() && Snapshot() == S.PutScripts(old(Snapshot()), id, rows[..i])
      {
        assert rows[..i + 1][..i] == rows[..i];
        var e := UpsertModuleScriptGuarded(id, rows[i].0, rows[i].1);
      }
      assert rows[..|rows|] == rows;
    }

    /** The seeding loop for a module that is not there yet. */
    method SeedModuleVersions(moduleID: int, seeds: seq<S.SeedVersion>, now: int) returns (e: Effect)
      requires Valid() && forall v :: v in versions ==> versions[v].moduleID != moduleID
      modifies this
      ensures Consistent()
      ensures (Snapshot(), e) == S.SeedVersions(old(Snapshot()), moduleID, seeds, now)
      ensures e != UniqueViolation ==> (Valid() <==> |seeds| <= 1)
    {
      e := Rows(0);
      for i := 0 to |seeds|
        invariant Consistent() && e != UniqueViolation
        invariant (Snapshot(), e) == S.SeedVersions(old(Snapshot()), moduleID, seeds[..i], now)
      {
        assert seeds[..i + 1][..i] == seeds[..i];
        var id := nextVersion;
        e := CreatePolicyModuleVersion(moduleID, seeds[i].version, seeds[i].fields);
        if e == UniqueViolation {
          S.FailureStays(old(Snapshot()), moduleID, seeds, now, i + 1);
          return;
        }
        UpsertScripts(id, seeds[i].scripts);
        e := PublishModuleVersion(id, None, now);
      }
      assert seeds[..|seeds|] == seeds;
      S.SeedVersionsExactly(old(Snapshot()), moduleID, seeds, now);
      S.SeedingKeepsOneExactly(old(Snapshot()), moduleID, seeds, now);
    }
  }
}
