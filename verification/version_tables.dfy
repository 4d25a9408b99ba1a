/** The tables behind policy module versions and the statements that change
    them: each statement is a function from tables to tables that says which
    rows its guard lets through. */
module VersionTables {
  import opened Wrappers

  datatype State = Draft | Published | Superseded | Revoked

  /** The structured manifest columns; the derived `manifest_yaml` is left out. */
  datatype Fields = Fields(
    targetOS: string,
    scope: string,
    satisfies: string,
    parametersSchema: string,
    dependsOn: string,
    conflicts: string,
    sandboxProfile: string,
    reportSchema: string)

  /** `publishSeq` is a history variable: the position of the row's publication
      in the order of all publications, 0 before it. The real `publishedAt` has
      second granularity and may tie or step back. */
  datatype VersionRow = VersionRow(
    moduleID: int,
    version: string,
    state: State,
    fields: Fields,
    matchMode: string,
    publishedAt: int,
    publishedBy: Option<int>,
    supersededBy: Option<string>,
    publishSeq: nat)

  datatype Script = Script(language: string, source: string, origin: string, seqNo: int)
  datatype Action = Action(caption: string, kind: string, value: string, origin: string, seqNo: int)
  datatype Test = Test(
    kind: string,
    paramPath: string,
    operator: string,
    valueJson: string,
    scriptSource: string,
    scriptRef: string)
  datatype ConditionRow = ConditionRow(versionID: int, test: Test, seqNo: int)

  /** Row IDs are assigned in increasing order and never reused. */
  datatype Tables = Tables(
    versions: map<int, VersionRow>,
    scripts: map<(int, string), Script>,
    actions: map<(int, string), Action>,
    conditions: map<int, ConditionRow>,
    nextVersion: int,
    nextCondition: int,
    publications: nat)

  const EMPTY := Tables(map[], map[], map[], map[], 0, 0, 0)
  const CUSTOM := "custom"
  const MATCH_ALL := "all"

  /** How many rows a statement changed, or the constraint it ran into. */
  datatype Effect = Rows(n: nat) | UniqueViolation

  predicate IsDraft(t: Tables, id: int) {
    id in t.versions && t.versions[id].state == Draft
  }

  /** Another row than `id` already holds (moduleID, version). */
  predicate VersionTaken(t: Tables, id: int, moduleID: int, version: string) {
    exists w :: w in t.versions && w != id && t.versions[w].moduleID == moduleID && t.versions[w].version == version
  }

  predicate SeqTaken(t: Tables, id: int, seqNo: int) {
    exists c :: c in t.conditions && t.conditions[c].versionID == id && t.conditions[c].seqNo == seqNo
  }

  // --- versions -------------------------------------------------------

  function CreateDraft(t: Tables, moduleID: int, version: string, fields: Fields): (Tables, Effect) {
    if VersionTaken(t, t.nextVersion, moduleID, version) then (t, UniqueViolation)
    else
      var row := VersionRow(moduleID, version, Draft, fields, MATCH_ALL, 0, None, None, 0);
      (t.(versions := t.versions[t.nextVersion := row], nextVersion := t.nextVersion + 1), Rows(1))
  }

  function UpdateDraft(t: Tables, id: int, version: string, fields: Fields): (Tables, Effect) {
    if !IsDraft(t, id) then (t, Rows(0))
    else if VersionTaken(t, id, t.versions[id].moduleID, version) then (t, UniqueViolation)
    else (t.(versions := t.versions[id := t.versions[id].(version := version, fields := fields)]), Rows(1))
  }

  function SetMatchMode(t: Tables, id: int, mode: string): (Tables, Effect) {
    if !IsDraft(t, id) then (t, Rows(0))
    else (t.(versions := t.versions[id := t.versions[id].(matchMode := mode)]), Rows(1))
  }

  /** Scripts, actions and conditions of the draft go with it. */
  function DeleteDraft(t: Tables, id: int): (Tables, Effect) {
    if !IsDraft(t, id) then (t, Rows(0))
    else
      (t.(versions := t.versions - {id},
          scripts := map k | k in t.scripts && k.0 != id :: t.scripts[k],
          actions := map k | k in t.actions && k.0 != id :: t.actions[k],
          conditions := map c | c in t.conditions && t.conditions[c].versionID != id :: t.conditions[c]),
       Rows(1))
  }

  function Revoke(t: Tables, id: int): (Tables, Effect) {
    if id in t.versions && (t.versions[id].state == Published || t.versions[id].state == Superseded) then
      (t.(versions := t.versions[id := t.versions[id].(state := Revoked)]), Rows(1))
    else (t, Rows(0))
  }

  function PublishRow(t: Tables, id: int, actor: Option<int>, now: int): (Tables, Effect) {
    if !IsDraft(t, id) then (t, Rows(0))
    else
      var row := t.versions[id].(state := Published, publishedAt := now, publishedBy := actor,
                                 publishSeq := t.publications + 1);
      (t.(versions := t.versions[id := row], publications := t.publications + 1), Rows(1))
  }

  predicate Supersedes(t: Tables, moduleID: int, exclude: int, id: int) {
    id in t.versions && t.versions[id].moduleID == moduleID && t.versions[id].state == Published && id != exclude
  }

  function SupersedePublished(t: Tables, moduleID: int, exclude: int, version: string): Tables {
    t.(versions := map id | id in t.versions ::
      if Supersedes(t, moduleID, exclude, id)
      then t.versions[id].(state := Superseded, supersededBy := Some(version))
      else t.versions[id])
  }

  /** The publish transaction: nothing happens unless the row is still a draft.
      `moduleID` and `version` are what the caller read before the transaction. */
  function PublishTransaction(t: Tables, id: int, moduleID: int, version: string, actor: int, now: int): (Tables, Effect) {
    var (published, effect) := PublishRow(t, id, Some(actor), now);
    if effect == Rows(0) then (t, Rows(0))
    else (SupersedePublished(published, moduleID, id, version), Rows(1))
  }

  // --- scripts, actions, conditions -----------------------------------

  /** On conflict the row keeps its sequence number. */
  function UpsertScript(t: Tables, id: int, name: string, s: Script): (Tables, Effect) {
    if !IsDraft(t, id) then (t, Rows(0))
    else
      var row := if (id, name) in t.scripts then s.(seqNo := t.scripts[(id, name)].seqNo) else s;
      (t.(scripts := t.scripts[(id, name) := row]), Rows(1))
  }

  function RenameScript(t: Tables, id: int, oldName: string, newName: string): (Tables, Effect) {
    if !IsDraft(t, id) || (id, oldName) !in t.scripts then (t, Rows(0))
    else if newName != oldName && (id, newName) in t.scripts then (t, UniqueViolation)
    else
      (t.(scripts := (t.scripts - {(id, oldName)})[(id, newName) := t.scripts[(id, oldName)]]), Rows(1))
  }

  function DeleteScript(t: Tables, id: int, name: string): (Tables, Effect) {
    if !IsDraft(t, id) || (id, name) !in t.scripts then (t, Rows(0))
    else (t.(scripts := t.scripts - {(id, name)}), Rows(1))
  }

  function UpsertAction(t: Tables, id: int, key: string, a: Action): (Tables, Effect) {
    if !IsDraft(t, id) then (t, Rows(0))
    else
      var row := if (id, key) in t.actions then a.(seqNo := t.actions[(id, key)].seqNo) else a;
      (t.(actions := t.actions[(id, key) := row]), Rows(1))
  }

  function DeleteAction(t: Tables, id: int, key: string): (Tables, Effect) {
    if !IsDraft(t, id) || (id, key) !in t.actions then (t, Rows(0))
    else (t.(actions := t.actions - {(id, key)}), Rows(1))
  }

  function AddCondition(t: Tables, id: int, test: Test, seqNo: int): (Tables, Effect) {
    if !IsDraft(t, id) then (t, Rows(0))
    else if SeqTaken(t, id, seqNo) then (t, UniqueViolation)
    else
      (t.(conditions := t.conditions[t.nextCondition := ConditionRow(id, test, seqNo)],
          nextCondition := t.nextCondition + 1), Rows(1))
  }

  predicate OwnsCondition(t: Tables, id: int, c: int) {
    c in t.conditions && t.conditions[c].versionID == id
  }

  function UpdateCondition(t: Tables, c: int, id: int, test: Test): (Tables, Effect) {
    if !IsDraft(t, id) || !OwnsCondition(t, id, c) then (t, Rows(0))
    else (t.(conditions := t.conditions[c := t.conditions[c].(test := test)]), Rows(1))
  }

  function DeleteCondition(t: Tables, c: int, id: int): (Tables, Effect) {
    if !IsDraft(t, id) || !OwnsCondition(t, id, c) then (t, Rows(0))
    else (t.(conditions := t.conditions - {c}), Rows(1))
  }

  // --- the two statements without a state guard ------------------------

  predicate CustomScript(t: Tables, id: int, k: (int, string)) {
    k in t.scripts && k.0 == id && t.scripts[k].origin == CUSTOM
  }

  predicate CustomAction(t: Tables, id: int, k: (int, string)) {
    k in t.actions && k.0 == id && t.actions[k].origin == CUSTOM
  }

  function DeleteCustomScripts(t: Tables, id: int): Tables {
    t.(scripts := map k | k in t.scripts && !CustomScript(t, id, k) :: t.scripts[k])
  }

  function DeleteCustomActions(t: Tables, id: int): Tables {
    t.(actions := map k | k in t.actions && !CustomAction(t, id, k) :: t.actions[k])
  }
}
