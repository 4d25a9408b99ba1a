/** What each statement on the version tables does when its guard lets it
    through, row by row and column by column, and that it does nothing
    otherwise. */
module VersionStatements {
  import opened Wrappers
  import opened VersionTables
  import opened VersionLifecycle

  // ---------------------------------------------------------------------
  // Version rows
  // ---------------------------------------------------------------------

  predicate OtherRowsKept(t: Tables, u: Tables, id: int) {
    && (forall v :: v in t.versions && v != id ==> v in u.versions && u.versions[v] == t.versions[v])
    && (forall v :: v in u.versions && v != id ==> v in t.versions)
  }

  predicate SameChildren(t: Tables, u: Tables) {
    && u.scripts == t.scripts && u.actions == t.actions && u.conditions == t.conditions
    && u.nextCondition == t.nextCondition
  }

  /** Nothing but the row `id` differs. */
  predicate OnlyRowChanged(t: Tables, u: Tables, id: int) {
    && id in t.versions && id in u.versions && OtherRowsKept(t, u, id) && SameChildren(t, u)
    && u.nextVersion == t.nextVersion
  }

  /** The name is free in the module, apart from the row `id` itself. */
  ghost predicate NameFree(t: Tables, id: int, moduleID: int, version: string) {
    forall w :: w in t.versions && w != id ==> t.versions[w].moduleID != moduleID || t.versions[w].version != version
  }

  lemma CreatesExactly(t: Tables, moduleID: int, version: string, fields: Fields)
    requires TablesOk(t)
    ensures var (u, e) := CreateDraft(t, moduleID, version, fields);
            if NameFree(t, t.nextVersion, moduleID, version) then
              && e == Rows(1) && t.nextVersion in u.versions
              && var row := u.versions[t.nextVersion];
              && row.moduleID == moduleID && row.version == version && row.fields == fields
              && row.state == Draft && row.matchMode == MATCH_ALL && row.supersededBy == None && row.publishSeq == 0
              && OtherRowsKept(t, u, t.nextVersion) && SameChildren(t, u)
              && u.nextVersion == t.nextVersion + 1 && u.publications == t.publications
            else e == UniqueViolation && u == t
  {
  }

  lemma EditsExactly(t: Tables, id: int, version: string, fields: Fields)
    ensures var (u, e) := UpdateDraft(t, id, version, fields);
            if !IsDraft(t, id) then e == Rows(0) && u == t
            else if NameFree(t, id, t.versions[id].moduleID, version) then
              && e == Rows(1) && OnlyRowChanged(t, u, id) && u.publications == t.publications
              && u.versions[id].version == version && u.versions[id].fields == fields
              && t.versions[id] == u.versions[id].(version := t.versions[id].version, fields := t.versions[id].fields)
            else e == UniqueViolation && u == t
  {
  }

  lemma MatchesExactly(t: Tables, id: int, mode: string)
    ensures var (u, e) := SetMatchMode(t, id, mode);
            if !IsDraft(t, id) then e == Rows(0) && u == t
            else
              && e == Rows(1) && OnlyRowChanged(t, u, id) && u.publications == t.publications
              && u.versions[id].matchMode == mode
              && t.versions[id] == u.versions[id].(matchMode := t.versions[id].matchMode)
  {
  }

  /** The draft and all that belongs to it are gone, and nothing else is. */
  lemma DiscardsExactly(t: Tables, id: int)
    ensures var (u, e) := DeleteDraft(t, id);
            if !IsDraft(t, id) then e == Rows(0) && u == t
            else
              && e == Rows(1) && id !in u.versions && OtherRowsKept(t, u, id)
              && (forall k :: k in u.scripts <==> k in t.scripts && k.0 != id)
              && (forall k :: k in u.scripts ==> u.scripts[k] == t.scripts[k])
              && (forall k :: k in u.actions <==> k in t.actions && k.0 != id)
              && (forall k :: k in u.actions ==> u.actions[k] == t.actions[k])
              && (forall c :: c in u.conditions <==> c in t.conditions && t.conditions[c].versionID != id)
              && (forall c :: c in u.conditions ==> u.conditions[c] == t.conditions[c])
              && u.nextVersion == t.nextVersion && u.nextCondition == t.nextCondition
              && u.publications == t.publications
  {
  }

  /** A published or superseded version becomes revoked, and in that case only
      the statement reports a row. */
  lemma RevokesExactly(t: Tables, id: int)
    ensures var (u, e) := Revoke(t, id);
            if id in t.versions && (t.versions[id].state == Published || t.versions[id].state == Superseded) then
              && e == Rows(1) && OnlyRowChanged(t, u, id) && u.publications == t.publications
              && u.versions[id].state == Revoked
              && t.versions[id] == u.versions[id].(state := t.versions[id].state)
            else e == Rows(0) && u == t
  {
  }

  lemma PublishesExactly(t: Tables, id: int, actor: Option<int>, now: int)
    ensures var (u, e) := PublishRow(t, id, actor, now);
            if !IsDraft(t, id) then e == Rows(0) && u == t
            else
              && e == Rows(1) && OnlyRowChanged(t, u, id) && u.publications == t.publications + 1
              && var row := u.versions[id];
              && row.state == Published && row.publishedAt == now && row.publishedBy == actor
              && row.publishSeq == u.publications
              && t.versions[id] == row.(state := Draft, publishedAt := t.versions[id].publishedAt,
                                        publishedBy := t.versions[id].publishedBy,
                                        publishSeq := t.versions[id].publishSeq)
  {
  }

  /** A commit that finds its draft publishes it, supersedes the other published
      rows of the module it read, and touches nothing else; any other commit
      does nothing. */
  lemma TransactsExactly(t: Tables, id: int, moduleID: int, version: string, actor: int, now: int)
    ensures var (u, e) := PublishTransaction(t, id, moduleID, version, actor, now);
            if !IsDraft(t, id) then e == Rows(0) && u == t
            else
              && e == Rows(1) && u.versions.Keys == t.versions.Keys && SameChildren(t, u)
              && u.nextVersion == t.nextVersion && u.publications == t.publications + 1
              && u.versions[id].state == Published
              && forall v :: v in t.versions && v != id ==>
                   if t.versions[v].state == Published && t.versions[v].moduleID == moduleID
                   then u.versions[v] == t.versions[v].(state := Superseded, supersededBy := Some(version))
                   else u.versions[v] == t.versions[v]
  {
    PublishesExactly(t, id, Some(actor), now);
    if IsDraft(t, id) {
      PublishedRows(t, id, moduleID, version, actor, now);
    }
  }

  // ---------------------------------------------------------------------
  // Child rows
  // ---------------------------------------------------------------------

  /** Nothing but the script rows differs. */
  predicate OnlyScripts(t: Tables, u: Tables) {
    u == t.(scripts := u.scripts)
  }

  predicate OtherScriptsKept(t: Tables, u: Tables, id: int, name: string, newName: string) {
    && (forall k :: k in t.scripts && k != (id, name) && k != (id, newName) ==>
          k in u.scripts && u.scripts[k] == t.scripts[k])
    && (forall k :: k in u.scripts && k != (id, name) && k != (id, newName) ==> k in t.scripts)
  }

  lemma UpsertsScriptExactly(t: Tables, id: int, name: string, s: Script)
    ensures var (u, e) := UpsertScript(t, id, name, s);
            if !IsDraft(t, id) then e == Rows(0) && u == t
            else
              && e == Rows(1) && OnlyScripts(t, u) && OtherScriptsKept(t, u, id, name, name)
              && (id, name) in u.scripts
              && var row := u.scripts[(id, name)];
              && row.language == s.language && row.source == s.source && row.origin == s.origin
              && row.seqNo == if (id, name) in t.scripts then t.scripts[(id, name)].seqNo else s.seqNo
  {
  }

  /** The script is found under its new name and no longer under the old one. */
  lemma RenamesExactly(t: Tables, id: int, name: string, newName: string)
    ensures var (u, e) := RenameScript(t, id, name, newName);
            if !IsDraft(t, id) || (id, name) !in t.scripts then e == Rows(0) && u == t
            else if newName != name && (id, newName) in t.scripts then e == UniqueViolation && u == t
            else
              && e == Rows(1) && OnlyScripts(t, u) && OtherScriptsKept(t, u, id, name, newName)
              && (id, newName) in u.scripts && u.scripts[(id, newName)] == t.scripts[(id, name)]
              && (newName != name ==> (id, name) !in u.scripts)
  {
  }

  lemma DropsScriptExactly(t: Tables, id: int, name: string)
    ensures var (u, e) := DeleteScript(t, id, name);
            if !IsDraft(t, id) || (id, name) !in t.scripts then e == Rows(0) && u == t
            else e == Rows(1) && OnlyScripts(t, u) && OtherScriptsKept(t, u, id, name, name) && (id, name) !in u.scripts
  {
  }

  predicate OnlyActions(t: Tables, u: Tables) {
    u == t.(actions := u.actions)
  }

  predicate OtherActionsKept(t: Tables, u: Tables, id: int, key: string) {
    && (forall k :: k in t.actions && k != (id, key) ==> k in u.actions && u.actions[k] == t.actions[k])
    && (forall k :: k in u.actions && k != (id, key) ==> k in t.actions)
  }

  lemma UpsertsActionExactly(t: Tables, id: int, key: string, a: Action)
    ensures var (u, e) := UpsertAction(t, id, key, a);
            if !IsDraft(t, id) then e == Rows(0) && u == t
            else
              && e == Rows(1) && OnlyActions(t, u) && OtherActionsKept(t, u, id, key)
              && (id, key) in u.actions
              && var row := u.actions[(id, key)];
              && row.caption == a.caption && row.kind == a.kind && row.value == a.value && row.origin == a.origin
              && row.seqNo == if (id, key) in t.actions then t.actions[(id, key)].seqNo else a.seqNo
  {
  }

  lemma DropsActionExactly(t: Tables, id: int, key: string)
    ensures var (u, e) := DeleteAction(t, id, key);
            if !IsDraft(t, id) || (id, key) !in t.actions then e == Rows(0) && u == t
            else e == Rows(1) && OnlyActions(t, u) && OtherActionsKept(t, u, id, key) && (id, key) !in u.actions
  {
  }

  predicate OtherConditionsKept(t: Tables, u: Tables, c: int) {
    && (forall d :: d in t.conditions && d != c ==> d in u.conditions && u.conditions[d] == t.conditions[d])
    && (forall d :: d in u.conditions && d != c ==> d in t.conditions)
    && u == t.(conditions := u.conditions, nextCondition := u.nextCondition)
  }

  lemma AddsConditionExactly(t: Tables, id: int, test: Test, seqNo: int)
    ensures var (u, e) := AddCondition(t, id, test, seqNo);
            if !IsDraft(t, id) then e == Rows(0) && u == t
            else if exists d :: d in t.conditions && t.conditions[d].versionID == id && t.conditions[d].seqNo == seqNo
            then e == UniqueViolation && u == t
            else
              && e == Rows(1) && OtherConditionsKept(t, u, t.nextCondition) && u.nextCondition == t.nextCondition + 1
              && t.nextCondition in u.conditions && u.conditions[t.nextCondition] == ConditionRow(id, test, seqNo)
  {
  }

  lemma EditsConditionExactly(t: Tables, c: int, id: int, test: Test)
    ensures var (u, e) := UpdateCondition(t, c, id, test);
            if !IsDraft(t, id) || c !in t.conditions || t.conditions[c].versionID != id then e == Rows(0) && u == t
            else
              && e == Rows(1) && OtherConditionsKept(t, u, c) && u.nextCondition == t.nextCondition
              && c in u.conditions && u.conditions[c] == ConditionRow(id, test, t.conditions[c].seqNo)
  {
  }

  lemma DropsConditionExactly(t: Tables, c: int, id: int)
    ensures var (u, e) := DeleteCondition(t, c, id);
            if !IsDraft(t, id) || c !in t.conditions || t.conditions[c].versionID != id then e == Rows(0) && u == t
            else
              && e == Rows(1) && OtherConditionsKept(t, u, c) && u.nextCondition == t.nextCondition
              && c !in u.conditions
  {
  }

  /** The unguarded deletes take exactly the version's custom rows. */
  lemma CustomDeletesExactly(t: Tables, id: int)
    ensures var u := DeleteCustomScripts(t, id);
            && OnlyScripts(t, u)
            && (forall k :: k in u.scripts <==> k in t.scripts && !(k.0 == id && t.scripts[k].origin == "custom"))
            && (forall k :: k in u.scripts ==> u.scripts[k] == t.scripts[k])
    ensures var u := DeleteCustomActions(t, id);
            && OnlyActions(t, u)
            && (forall k :: k in u.actions <==> k in t.actions && !(k.0 == id && t.actions[k].origin == "custom"))
            && (forall k :: k in u.actions ==> u.actions[k] == t.actions[k])
  {
  }

  // ---------------------------------------------------------------------
  // Statements as steps of a run
  // ---------------------------------------------------------------------

  /** A step of a run is the statement of its name on the tables, and changes
      nothing besides. */
  lemma StepsRunTheirStatements(s: System, id: int, c: int, name: string, other: string, n: int,
                                fields: Fields, script: Script, action: Action, test: Test)
    ensures Next(s, OnVersion(Create(id, name, fields))) == s.(db := CreateDraft(s.db, id, name, fields).0)
    ensures Next(s, OnVersion(Edit(id, name, fields))) == s.(db := UpdateDraft(s.db, id, name, fields).0)
    ensures Next(s, OnVersion(Match(id, name))) == s.(db := SetMatchMode(s.db, id, name).0)
    ensures Next(s, OnVersion(Discard(id))) == s.(db := DeleteDraft(s.db, id).0)
    ensures Next(s, OnVersion(RevokeVersion(id))) == s.(db := Revoke(s.db, id).0)
    ensures Next(s, OnVersion(SeedPublish(id, n))) == s.(db := PublishRow(s.db, id, None, n).0)
    ensures Next(s, OnScript(PutScript(id, name, script))) == s.(db := UpsertScript(s.db, id, name, script).0)
    ensures Next(s, OnScript(MoveScript(id, name, other))) == s.(db := RenameScript(s.db, id, name, other).0)
    ensures Next(s, OnScript(DropScript(id, name))) == s.(db := DeleteScript(s.db, id, name).0)
    ensures Next(s, OnAction(PutAction(id, name, action))) == s.(db := UpsertAction(s.db, id, name, action).0)
    ensures Next(s, OnAction(DropAction(id, name))) == s.(db := DeleteAction(s.db, id, name).0)
    ensures Next(s, OnCondition(PutCondition(id, test, n))) == s.(db := AddCondition(s.db, id, test, n).0)
    ensures Next(s, OnCondition(EditCondition(id, c, test))) == s.(db := UpdateCondition(s.db, c, id, test).0)
    ensures Next(s, OnCondition(DropCondition(id, c))) == s.(db := DeleteCondition(s.db, c, id).0)
  {
  }

  /** A revocation in a run: a published or superseded version is revoked, every
      other column and row is kept, and any other version is left alone. */
  lemma RevocationTakesEffect(s: System, v: int)
    ensures var u := Next(s, OnVersion(RevokeVersion(v)));
            && u.publishes == s.publishes && u.resets == s.resets
            && if v in s.db.versions && (s.db.versions[v].state == Published || s.db.versions[v].state == Superseded) then
                 && OnlyRowChanged(s.db, u.db, v) && u.db.publications == s.db.publications
                 && u.db.versions[v].state == Revoked
                 && s.db.versions[v] == u.db.versions[v].(state := s.db.versions[v].state)
               else u == s
  {
    RevokesExactly(s.db, v);
  }

  // ---------------------------------------------------------------------
  // Requests and resets without interruption
  // ---------------------------------------------------------------------

  /** A publish request whose steps follow each other does what the transaction
      does with what the row holds now, if the row is a draft with an apply
      script, and otherwise nothing. */
  lemma UndisturbedPublish(s: System, tx: int, id: int, actor: int, now: int)
    requires tx !in s.publishes
    ensures var u := Next(Next(s, BeginPublish(tx, id)), CommitPublish(tx, actor, now));
            if id in s.db.versions && s.db.versions[id].state == Draft && (id, "apply") in s.db.scripts then
              var row := s.db.versions[id];
              u.db == PublishTransaction(s.db, id, row.moduleID, row.version, actor, now).0 && tx !in u.publishes
            else u == s
  {
  }

  /** A reset that nobody disturbs takes the custom rows of a draft, and does
      nothing to any other version. */
  lemma UndisturbedReset(s: System, id: int)
    requires id !in s.resets
    ensures var u := Next(Next(Next(s, BeginReset(id)), ResetScripts(id)), ResetActions(id));
            u.db == if id in s.db.versions && s.db.versions[id].state == Draft
                    then DeleteCustomActions(DeleteCustomScripts(s.db, id), id) else s.db
  {
  }
}
