/** Seeding the bundled modules: for a module that is not there yet, every
    listed version is created, given its scripts and published, and nothing is
    ever superseded. */
module VersionSeeding {
  import opened Wrappers
  import opened VersionTables
  import opened VersionLifecycle
  import H = VersionHistory

  datatype SeedVersion = SeedVersion(version: string, fields: Fields, scripts: seq<(string, Script)>)

  function PutScripts(t: Tables, id: int, scripts: seq<(string, Script)>): Tables {
    if scripts == [] then t
    else
      var (name, script) := scripts[|scripts| - 1];
      UpsertScript(PutScripts(t, id, scripts[..|scripts| - 1]), id, name, script).0
  }

  /** The loop over the versions of one module; it stops at the first name that
      the module already has, and what was done before stays. */
  function SeedVersions(t: Tables, moduleID: int, seeds: seq<SeedVersion>, now: int): (Tables, Effect) {
    if seeds == [] then (t, Rows(0))
    else
      var seed := seeds[|seeds| - 1];
      var (u, before) := SeedVersions(t, moduleID, seeds[..|seeds| - 1], now);
      if before == UniqueViolation then (u, UniqueViolation)
      else
        var (created, effect) := CreateDraft(u, moduleID, seed.version, seed.fields);
        if effect == UniqueViolation then (u, UniqueViolation)
        else PublishRow(PutScripts(created, u.nextVersion, seed.scripts), u.nextVersion, None, now)
  }

  predicate NamesDiffer(seeds: seq<SeedVersion>) {
    forall i, j :: 0 <= i < j < |seeds| ==> seeds[i].version != seeds[j].version
  }

  /** `u` is `t` with one published row for each seed, in order. */
  ghost predicate Seeded(t: Tables, u: Tables, moduleID: int, seeds: seq<SeedVersion>, now: int) {
    && u.nextVersion == t.nextVersion + |seeds| && u.publications == t.publications + |seeds|
    && (forall v :: v in u.versions <==> v in t.versions || t.nextVersion <= v < u.nextVersion)
    && (forall v :: v in t.versions ==> v in u.versions && u.versions[v] == t.versions[v])
    && forall i :: 0 <= i < |seeds| ==>
         t.nextVersion + i in u.versions
         && u.versions[t.nextVersion + i] == VersionRow(moduleID, seeds[i].version, Published, seeds[i].fields,
                                                        MATCH_ALL, now, None, None, t.publications + i + 1)
  }

  lemma {:induction false} PutScriptsKeeps(t: Tables, id: int, scripts: seq<(string, Script)>)
    requires TablesOk(t)
    ensures TablesOk(PutScripts(t, id, scripts))
    ensures PutScripts(t, id, scripts) == t.(scripts := PutScripts(t, id, scripts).scripts)
  {
    if scripts == [] {
    } else {
      var (name, script) := scripts[|scripts| - 1];
      PutScriptsKeeps(t, id, scripts[..|scripts| - 1]);
      ScriptStatementKeeps(PutScripts(t, id, scripts[..|scripts| - 1]), PutScript(id, name, script));
    }
  }

  lemma SeedOne(t: Tables, moduleID: int, seed: SeedVersion, now: int)
    requires TablesOk(t) && !VersionTaken(t, t.nextVersion, moduleID, seed.version)
    ensures var created := CreateDraft(t, moduleID, seed.version, seed.fields).0;
            var (u, effect) := PublishRow(PutScripts(created, t.nextVersion, seed.scripts), t.nextVersion, None, now);
            TablesOk(u) && effect == Rows(1) && Seeded(t, u, moduleID, [seed], now)
  {
    CreateKeeps(t, moduleID, seed.version, seed.fields);
    var created := CreateDraft(t, moduleID, seed.version, seed.fields).0;
    PutScriptsKeeps(created, t.nextVersion, seed.scripts);
    VersionStatementKeeps(PutScripts(created, t.nextVersion, seed.scripts), SeedPublish(t.nextVersion, now));
  }

  lemma SeedAfter(t: Tables, u: Tables, w: Tables, moduleID: int, front: seq<SeedVersion>, seed: SeedVersion, now: int)
    requires Seeded(t, u, moduleID, front, now) && Seeded(u, w, moduleID, [seed], now)
    ensures Seeded(t, w, moduleID, front + [seed], now)
  {
    var seeds := front + [seed];
    forall i | 0 <= i < |seeds|
      ensures t.nextVersion + i in w.versions
      ensures w.versions[t.nextVersion + i] == VersionRow(moduleID, seeds[i].version, Published, seeds[i].fields,
                                                          MATCH_ALL, now, None, None, t.publications + i + 1)
    {
      if i < |front| {
        assert seeds[i] == front[i] && t.nextVersion + i in u.versions;
      } else {
        assert seeds[i] == [seed][0] && u.nextVersion + 0 in w.versions;
      }
    }
  }

  lemma TakenBySeed(t: Tables, u: Tables, moduleID: int, front: seq<SeedVersion>, name: string, now: int)
    requires TablesOk(t) && Seeded(t, u, moduleID, front, now)
    requires forall v :: v in t.versions ==> t.versions[v].moduleID != moduleID
    ensures VersionTaken(u, u.nextVersion, moduleID, name) <==> exists i :: 0 <= i < |front| && front[i].version == name
  {
    if w :| w in u.versions && w != u.nextVersion && u.versions[w].moduleID == moduleID && u.versions[w].version == name {
      var i := w - t.nextVersion;
      assert 0 <= i < |front| && front[i].version == name;
    }
    if i :| 0 <= i < |front| && front[i].version == name {
      assert t.nextVersion + i in u.versions;
    }
  }

  /** A failure ends the loop. */
  lemma {:induction false} FailureStays(t: Tables, moduleID: int, seeds: seq<SeedVersion>, now: int, k: nat)
    requires k <= |seeds| && SeedVersions(t, moduleID, seeds[..k], now).1 == UniqueViolation
    ensures SeedVersions(t, moduleID, seeds, now) == SeedVersions(t, moduleID, seeds[..k], now)
    decreases |seeds|
  {
    if k == |seeds| {
      assert seeds[..k] == seeds;
    } else {
      assert seeds[..|seeds| - 1][..k] == seeds[..k];
      FailureStays(t, moduleID, seeds[..|seeds| - 1], now, k);
    }
  }

  /** Seeding a new module goes through exactly when its version names differ,
      and then publishes every one of its versions. */
  lemma {:induction false} SeedVersionsExactly(t: Tables, moduleID: int, seeds: seq<SeedVersion>, now: int)
    requires TablesOk(t) && forall v :: v in t.versions ==> t.versions[v].moduleID != moduleID
    ensures var (u, effect) := SeedVersions(t, moduleID, seeds, now);
            && TablesOk(u)
            && (effect == UniqueViolation <==> !NamesDiffer(seeds))
            && (effect != UniqueViolation ==> Seeded(t, u, moduleID, seeds, now))
  {
    if seeds == [] {
    } else {
      var front, seed := seeds[..|seeds| - 1], seeds[|seeds| - 1];
      assert seeds == front + [seed];
      SeedVersionsExactly(t, moduleID, front, now);
      var (u, before) := SeedVersions(t, moduleID, front, now);
      if before != UniqueViolation {
        TakenBySeed(t, u, moduleID, front, seed.version, now);
        if !VersionTaken(u, u.nextVersion, moduleID, seed.version) {
          SeedOne(u, moduleID, seed, now);
          SeedAfter(t, u, SeedVersions(t, moduleID, seeds, now).0, moduleID, front, seed, now);
        }
      }
    }
  }

  /** A repeated name ends the loop: what stays is what the seeds before it left. */
  lemma {:induction false} SeedingStopsAtRepetition(t: Tables, moduleID: int, seeds: seq<SeedVersion>, now: int) returns (n: nat)
    requires TablesOk(t) && forall v :: v in t.versions ==> t.versions[v].moduleID != moduleID
    requires !NamesDiffer(seeds)
    ensures n < |seeds| && NamesDiffer(seeds[..n]) && !NamesDiffer(seeds[..n + 1])
    ensures SeedVersions(t, moduleID, seeds, now) == (SeedVersions(t, moduleID, seeds[..n], now).0, UniqueViolation)
  {
    var front := seeds[..|seeds| - 1];
    if NamesDiffer(front) {
      n := |front|;
      assert seeds[..n + 1] == seeds;
      SeedVersionsExactly(t, moduleID, front, now);
      SeedVersionsExactly(t, moduleID, seeds, now);
    } else {
      n := SeedingStopsAtRepetition(t, moduleID, front, now);
      assert front[..n] == seeds[..n] && front[..n + 1] == seeds[..n + 1];
    }
  }

  lemma SeededRow(t: Tables, u: Tables, moduleID: int, seeds: seq<SeedVersion>, now: int, i: nat)
    requires Seeded(t, u, moduleID, seeds, now) && i < |seeds|
    ensures IsPublished(u.versions, t.nextVersion + i) && u.versions[t.nextVersion + i].moduleID == moduleID
  {
    assert seeds[i] == seeds[i];
  }

  /** It leaves the module with at most one published version exactly when it
      was given at most one. */
  lemma SeedingKeepsOneExactly(t: Tables, moduleID: int, seeds: seq<SeedVersion>, now: int)
    requires TablesOk(t) && forall v :: v in t.versions ==> t.versions[v].moduleID != moduleID
    requires AtMostOnePublished(t) && NamesDiffer(seeds)
    ensures AtMostOnePublished(SeedVersions(t, moduleID, seeds, now).0) <==> |seeds| <= 1
  {
    SeedVersionsExactly(t, moduleID, seeds, now);
    var u := SeedVersions(t, moduleID, seeds, now).0;
    if |seeds| > 1 {
      ManySeedsCollide(t, u, moduleID, seeds, now);
    } else {
      OneSeedAlone(t, u, moduleID, seeds, now);
    }
  }

  lemma ManySeedsCollide(t: Tables, u: Tables, moduleID: int, seeds: seq<SeedVersion>, now: int)
    requires Seeded(t, u, moduleID, seeds, now) && |seeds| > 1
    ensures !AtMostOnePublished(u)
  {
    SeededRow(t, u, moduleID, seeds, now, 0);
    SeededRow(t, u, moduleID, seeds, now, 1);
    assert Siblings(u.versions, t.nextVersion, t.nextVersion + 1);
  }

  lemma OneSeedAlone(t: Tables, u: Tables, moduleID: int, seeds: seq<SeedVersion>, now: int)
    requires Seeded(t, u, moduleID, seeds, now) && |seeds| <= 1 && AtMostOnePublished(t)
    requires forall v :: v in t.versions ==> t.versions[v].moduleID != moduleID
    ensures AtMostOnePublished(u)
  {
    if |seeds| == 1 {
      SeededRow(t, u, moduleID, seeds, now, 0);
    }
    forall a, b | Siblings(u.versions, a, b) && IsPublished(u.versions, a) ensures !IsPublished(u.versions, b) {
      assert a in t.versions && b in t.versions && Siblings(t.versions, a, b);
    }
  }

  // ---------------------------------------------------------------------
  // The scripts of seeded versions
  // ---------------------------------------------------------------------

  /** The `k`-th script is the last one of its name. */
  predicate LastOfItsName(scripts: seq<(string, Script)>, k: int) {
    0 <= k < |scripts| && forall j :: k < j < |scripts| ==> scripts[j].0 != scripts[k].0
  }

  predicate Listed(scripts: seq<(string, Script)>, name: string) {
    exists k :: 0 <= k < |scripts| && scripts[k].0 == name
  }

  /** The version has the listed scripts and no others, each with the content of
      the last entry of its name. */
  ghost predicate HasScripts(t: Tables, id: int, scripts: seq<(string, Script)>) {
    && (forall name :: (id, name) in t.scripts <==> Listed(scripts, name))
    && forall k :: LastOfItsName(scripts, k) ==>
         && (id, scripts[k].0) in t.scripts
         && var row := t.scripts[(id, scripts[k].0)];
            row.language == scripts[k].1.language && row.source == scripts[k].1.source && row.origin == scripts[k].1.origin
  }

  ghost predicate KeepsScripts(t: Tables, u: Tables, id: int) {
    && (forall k :: k in t.scripts && k.0 != id ==> k in u.scripts && u.scripts[k] == t.scripts[k])
    && (forall k :: k in u.scripts && k.0 != id ==> k in t.scripts)
  }

  lemma {:induction false} PutScriptsExactly(t: Tables, id: int, scripts: seq<(string, Script)>)
    requires TablesOk(t) && IsDraft(t, id) && forall name :: (id, name) !in t.scripts
    ensures HasScripts(PutScripts(t, id, scripts), id, scripts)
    ensures KeepsScripts(t, PutScripts(t, id, scripts), id)
  {
    if scripts == [] {
    } else {
      var front, entry := scripts[..|scripts| - 1], scripts[|scripts| - 1];
      assert scripts == front + [entry];
      PutScriptsExactly(t, id, front);
      PutScriptsKeeps(t, id, front);
      UpsertKeepsListed(PutScripts(t, id, front), id, front, entry);
    }
  }

  lemma UpsertKeepsListed(t: Tables, id: int, front: seq<(string, Script)>, entry: (string, Script))
    requires IsDraft(t, id) && HasScripts(t, id, front)
    ensures HasScripts(UpsertScript(t, id, entry.0, entry.1).0, id, front + [entry])
  {
    var u, scripts := UpsertScript(t, id, entry.0, entry.1).0, front + [entry];
    forall name ensures Listed(scripts, name) <==> Listed(front, name) || name == entry.0 {
      if k :| 0 <= k < |front| && front[k].0 == name {
        assert scripts[k].0 == name;
      }
      assert scripts[|front|] == entry;
    }
    forall k | LastOfItsName(scripts, k) && k < |front| ensures LastOfItsName(front, k) && front[k].0 != entry.0 {
      assert scripts[|front|].0 != scripts[k].0;
      forall j | k < j < |front| ensures front[j].0 != front[k].0 {
        assert scripts[j].0 != scripts[k].0;
      }
    }
  }

  /** Every seeded version has exactly its listed scripts, and the scripts of
      other versions are kept. */
  ghost predicate SeededScripts(t: Tables, u: Tables, seeds: seq<SeedVersion>) {
    && (forall i :: 0 <= i < |seeds| ==> HasScripts(u, t.nextVersion + i, seeds[i].scripts))
    && (forall k :: k in t.scripts ==> k in u.scripts && u.scripts[k] == t.scripts[k])
  }

  lemma ScriptsAfter(t: Tables, u: Tables, w: Tables, front: seq<SeedVersion>, seed: SeedVersion)
    requires SeededScripts(t, u, front) && u.nextVersion == t.nextVersion + |front|
    requires HasScripts(w, u.nextVersion, seed.scripts) && KeepsScripts(u, w, u.nextVersion)
    requires forall k :: k in t.scripts ==> k.0 < t.nextVersion
    ensures SeededScripts(t, w, front + [seed])
  {
    var seeds := front + [seed];
    forall i | 0 <= i < |seeds| ensures HasScripts(w, t.nextVersion + i, seeds[i].scripts) {
      if i < |front| {
        KeptScripts(u, w, u.nextVersion, t.nextVersion + i, front[i].scripts);
      }
    }
  }

  /** The last turn of a loop that went through. */
  lemma LastTurn(t: Tables, moduleID: int, front: seq<SeedVersion>, seed: SeedVersion, now: int)
    requires SeedVersions(t, moduleID, front + [seed], now).1 != UniqueViolation
    ensures SeedVersions(t, moduleID, front, now).1 != UniqueViolation
    ensures var u := SeedVersions(t, moduleID, front, now).0;
            var created := CreateDraft(u, moduleID, seed.version, seed.fields).0;
            && !VersionTaken(u, u.nextVersion, moduleID, seed.version)
            && SeedVersions(t, moduleID, front + [seed], now).0
            == PublishRow(PutScripts(created, u.nextVersion, seed.scripts), u.nextVersion, None, now).0
  {
    assert (front + [seed])[..|front|] == front;
  }

  lemma ScriptsAfterTurn(t: Tables, u: Tables, moduleID: int, front: seq<SeedVersion>, seed: SeedVersion, now: int)
    requires TablesOk(t) && TablesOk(u) && SeededScripts(t, u, front) && u.nextVersion == t.nextVersion + |front|
    requires !VersionTaken(u, u.nextVersion, moduleID, seed.version)
    ensures var created := CreateDraft(u, moduleID, seed.version, seed.fields).0;
            var w := PublishRow(PutScripts(created, u.nextVersion, seed.scripts), u.nextVersion, None, now).0;
            SeededScripts(t, w, front + [seed])
  {
    var created := CreateDraft(u, moduleID, seed.version, seed.fields).0;
    var w := PublishRow(PutScripts(created, u.nextVersion, seed.scripts), u.nextVersion, None, now).0;
    SeedOneScripts(u, moduleID, seed, now);
    ScriptsAfter(t, u, w, front, seed);
  }

  lemma {:induction false} SeededScriptsExactly(t: Tables, moduleID: int, seeds: seq<SeedVersion>, now: int)
    requires TablesOk(t) && forall v :: v in t.versions ==> t.versions[v].moduleID != moduleID
    requires SeedVersions(t, moduleID, seeds, now).1 != UniqueViolation
    ensures SeededScripts(t, SeedVersions(t, moduleID, seeds, now).0, seeds)
  {
    if seeds == [] {
    } else {
      var front, seed := seeds[..|seeds| - 1], seeds[|seeds| - 1];
      assert seeds == front + [seed];
      LastTurn(t, moduleID, front, seed, now);
      SeededScriptsExactly(t, moduleID, front, now);
      SeedVersionsExactly(t, moduleID, front, now);
      ScriptsAfterTurn(t, SeedVersions(t, moduleID, front, now).0, moduleID, front, seed, now);
    }
  }

  lemma SeedOneScripts(t: Tables, moduleID: int, seed: SeedVersion, now: int)
    requires TablesOk(t)
    ensures var created := CreateDraft(t, moduleID, seed.version, seed.fields).0;
            var u := PublishRow(PutScripts(created, t.nextVersion, seed.scripts), t.nextVersion, None, now).0;
            !VersionTaken(t, t.nextVersion, moduleID, seed.version) ==>
              HasScripts(u, t.nextVersion, seed.scripts) && KeepsScripts(t, u, t.nextVersion)
  {
    if !VersionTaken(t, t.nextVersion, moduleID, seed.version) {
      CreateKeeps(t, moduleID, seed.version, seed.fields);
      PutScriptsExactly(CreateDraft(t, moduleID, seed.version, seed.fields).0, t.nextVersion, seed.scripts);
    }
  }

  lemma KeptScripts(t: Tables, u: Tables, other: int, id: int, scripts: seq<(string, Script)>)
    requires HasScripts(t, id, scripts) && KeepsScripts(t, u, other) && id != other
    ensures HasScripts(u, id, scripts)
  {
  }

  /** Two versions seeded in one module are both published. */
  lemma SeedTwice(moduleID: int, a: string, b: string, fields: Fields) returns (steps: seq<Step>)
    requires a != b
    ensures !AtMostOnePublished(Run(START, steps).db) && !RunSeedsAlone(START, steps)
  {
    var s0 := [OnVersion(Create(moduleID, a, fields))];
    H.RunStep(START, [], s0[0]);
    assert s0 == [] + [s0[0]];
    var s1 := s0 + [OnVersion(SeedPublish(0, 0))];
    H.RunStep(START, s0, OnVersion(SeedPublish(0, 0)));
    assert !VersionTaken(Run(START, s1).db, 1, moduleID, b);
    var s2 := s1 + [OnVersion(Create(moduleID, b, fields))];
    H.RunStep(START, s1, OnVersion(Create(moduleID, b, fields)));
    steps := s2 + [OnVersion(SeedPublish(1, 0))];
    H.RunStep(START, s2, OnVersion(SeedPublish(1, 0)));
    assert Siblings(Run(START, steps).db.versions, 0, 1);
    OnePublishedExactly(START, steps);
  }
}
