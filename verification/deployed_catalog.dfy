/** The catalog that binding resolution reads is filled from the version tables:
    what the lifecycle guarantees is what a binding may count on. */
module DeployedCatalog {
  import opened ModuleTypes
  import opened VersionTables
  import L = VersionLifecycle
  import H = VersionHistory
  import B = BindingResolution
  import S = VersionStatements

  function StatusName(s: State): string {
    match s
    case Draft => DRAFT
    case Published => PUBLISHED
    case Superseded => SUPERSEDED
    case Revoked => REVOKED
  }

  /** Reading dependencies and conflicts out of a row's JSON columns. */
  type Manifest = Fields -> (seq<Dependency>, seq<string>)

  function Hydrate(row: VersionRow, manifest: Manifest): ModuleVersion {
    var (dependencies, conflicts) := manifest(row.fields);
    ModuleVersion(row.version, dependencies, conflicts, StatusName(row.state))
  }

  /** `ids` are the versions of a module, in any order. */
  ghost predicate Lists(t: Tables, moduleID: int, ids: seq<int>) {
    && (forall i, j :: 0 <= i < j < |ids| ==> ids[i] != ids[j])
    && (forall i :: 0 <= i < |ids| ==> ids[i] in t.versions && t.versions[ids[i]].moduleID == moduleID)
    && (forall v :: v in t.versions && t.versions[v].moduleID == moduleID ==> v in ids)
  }

  function Versions(t: Tables, ids: seq<int>, manifest: Manifest): (vs: seq<ModuleVersion>)
    requires forall i :: 0 <= i < |ids| ==> ids[i] in t.versions
    ensures |vs| == |ids| && forall i :: 0 <= i < |ids| ==> vs[i] == Hydrate(t.versions[ids[i]], manifest)
  {
    seq(|ids|, i requires 0 <= i < |ids| => Hydrate(t.versions[ids[i]], manifest))
  }

  lemma HydratedNamesUnique(t: Tables, moduleID: int, ids: seq<int>, manifest: Manifest)
    requires L.TablesOk(t) && Lists(t, moduleID, ids)
    ensures NamesUnique(Versions(t, ids, manifest))
  {
    forall i, j | 0 <= i < j < |ids| ensures t.versions[ids[i]].version != t.versions[ids[j]].version {
      assert L.Siblings(t.versions, ids[i], ids[j]);
    }
  }

  /** What the catalog says of a version is its row: name, manifest and state. */
  lemma HydratedAt(t: Tables, ids: seq<int>, manifest: Manifest, i: nat)
    requires forall j :: 0 <= j < |ids| ==> ids[j] in t.versions
    requires i < |ids|
    ensures var row, v := t.versions[ids[i]], Versions(t, ids, manifest)[i];
            && v.version == row.version
            && v.dependencies == manifest(row.fields).0 && v.conflicts == manifest(row.fields).1
            && (v.status == DRAFT <==> row.state == Draft) && (v.status == PUBLISHED <==> row.state == Published)
            && (v.status == SUPERSEDED <==> row.state == Superseded) && (v.status == REVOKED <==> row.state == Revoked)
  {
  }

  /** After any run, seeding included, and in whatever order the versions are
      listed: an unpinned pick is published, and a pin succeeds exactly when it
      names a published or superseded version. */
  lemma PicksFollowLifecycle(s: L.System, steps: seq<L.Step>, moduleID: int, ids: seq<int>, manifest: Manifest, m: Module, v: int)
    requires L.Sound(s) && Lists(L.Run(s, steps).db, moduleID, ids) && v in ids
    requires m.versions == Versions(L.Run(s, steps).db, ids, manifest)
    ensures var row := L.Run(s, steps).db.versions[v];
            && (B.PickVersion(m, "") == row.version != "" ==> row.state == Published)
            && (row.version != "" ==>
                  (B.PickVersion(m, row.version) == row.version <==> row.state == Published || row.state == Superseded))
  {
    L.RunKeeps(s, steps);
    var t := L.Run(s, steps).db;
    var k :| 0 <= k < |ids| && ids[k] == v;
    var row, hydrated := t.versions[v], m.versions[k];
    HydratedNamesUnique(t, moduleID, ids, manifest);
    assert hydrated in m.versions && hydrated.version == row.version && hydrated.status == StatusName(row.state);
    if row.version != "" {
      B.PicksAreDeployable(m, row.version, hydrated);
    }
    B.PicksAreDeployable(m, "", hydrated);
  }

  predicate PublishedAt(t: Tables, ids: seq<int>, i: int) {
    0 <= i < |ids| && ids[i] in t.versions && t.versions[ids[i]].state == Published
  }

  /** The unpinned pick is each published version of the module, whatever the
      order in which they are listed, exactly when there are not two of them. */
  lemma UnpinnedPickExactly(t: Tables, moduleID: int, ids: seq<int>, manifest: Manifest, m: Module)
    requires L.TablesOk(t) && Lists(t, moduleID, ids) && m.versions == Versions(t, ids, manifest)
    ensures (forall i :: PublishedAt(t, ids, i) ==> B.PickVersion(m, "") == t.versions[ids[i]].version)
            <==> forall i, j :: PublishedAt(t, ids, i) && PublishedAt(t, ids, j) ==> i == j
  {
    B.NewestPublishedExactly(m.versions);
    if forall i, j :: PublishedAt(t, ids, i) && PublishedAt(t, ids, j) ==> i == j {
      forall i | PublishedAt(t, ids, i) ensures B.PickVersion(m, "") == t.versions[ids[i]].version {
        forall j | 0 <= j < i ensures m.versions[j].status != PUBLISHED {
          assert !PublishedAt(t, ids, j);
        }
        assert B.IsNewestPublished(m.versions, i);
      }
    } else {
      var i, j :| PublishedAt(t, ids, i) && PublishedAt(t, ids, j) && i != j;
      assert L.Siblings(t.versions, ids[i], ids[j]);
    }
  }

  /** A revoked version is never picked again, pinned or not, whatever happens
      to the module afterwards. */
  lemma RevokedIsNeverPicked(s: L.System, steps: seq<L.Step>, moduleID: int, ids: seq<int>, manifest: Manifest, m: Module, v: int, pin: string)
    requires L.Sound(s) && v in s.db.versions && s.db.versions[v].state == Revoked
    requires Lists(L.Run(s, steps).db, moduleID, ids) && v in ids
    requires m.versions == Versions(L.Run(s, steps).db, ids, manifest)
    ensures B.PickVersion(m, pin) == "" || B.PickVersion(m, pin) != s.db.versions[v].version
  {
    L.RunKeeps(s, steps);
    L.StatesMoveForward(s, steps, v);
    H.FrozenExactly(s, steps, v);
    HydratedNamesUnique(L.Run(s, steps).db, moduleID, ids, manifest);
    var k :| 0 <= k < |ids| && ids[k] == v;
    assert m.versions[k] in m.versions;
    B.PicksAreDeployable(m, pin, m.versions[k]);
  }

  /** Revoking a version that could be deployed takes it out of every later
      pick, pinned or not, whatever run follows. */
  lemma RevocationEndsPicks(s: L.System, steps: seq<L.Step>, moduleID: int, ids: seq<int>, manifest: Manifest, m: Module, v: int, pin: string)
    requires L.Sound(s) && v in s.db.versions
    requires s.db.versions[v].state == Published || s.db.versions[v].state == Superseded
    requires var t := L.Run(L.Next(s, L.OnVersion(L.RevokeVersion(v))), steps).db;
             Lists(t, moduleID, ids) && v in ids && m.versions == Versions(t, ids, manifest)
    ensures B.PickVersion(m, pin) == "" || B.PickVersion(m, pin) != s.db.versions[v].version
  {
    S.RevocationTakesEffect(s, v);
    L.NextKeeps(s, L.OnVersion(L.RevokeVersion(v)));
    RevokedIsNeverPicked(L.Next(s, L.OnVersion(L.RevokeVersion(v))), steps, moduleID, ids, manifest, m, v, pin);
  }
}
