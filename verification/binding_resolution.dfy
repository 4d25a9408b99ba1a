/** Which module and version satisfy a policy binding: the binding's own pin,
    then the tenant's default, then the first bundled module. */
module BindingResolution {
  import opened Wrappers
  import opened ModuleTypes
  import T = TenantDefaults

  datatype Source = FromBinding | FromTenant | FromPluris | NoSource

  datatype Pick = Pick(moduleID: string, moduleVersion: string, source: Source)

  function FindModule(catalog: seq<Module>, id: string): Option<Module> {
    if catalog == [] then None
    else if catalog[0].id == id then Some(catalog[0])
    else FindModule(catalog[1..], id)
  }

  predicate Deployable(v: ModuleVersion) {
    v.status == PUBLISHED || v.status == SUPERSEDED
  }

  function NewestPublished(versions: seq<ModuleVersion>): string {
    if versions == [] then ""
    else if versions[0].status == PUBLISHED then versions[0].version
    else NewestPublished(versions[1..])
  }

  function Pinned(versions: seq<ModuleVersion>, requested: string): (r: string)
    ensures r == "" || r == requested
  {
    if versions == [] then ""
    else if versions[0].version != requested then Pinned(versions[1..], requested)
    else if Deployable(versions[0]) then requested else ""
  }

  /** The version string for a pin, "" when there is none. */
  function PickVersion(m: Module, requested: string): string {
    if requested == "" then NewestPublished(m.versions) else Pinned(m.versions, requested)
  }

  predicate Compatible(m: Module, urn: string, os: string) {
    m.SatisfiesURN(urn) && (os == "" || m.SupportsOS(os))
  }

  /** What a level that names module `id` with a pin can offer, "" for nothing. */
  function Offer(catalog: seq<Module>, id: string, pin: string, urn: string, os: string): string {
    if id == "" then ""
    else
      match FindModule(catalog, id)
      case None => ""
      case Some(m) => if Compatible(m, urn, os) then PickVersion(m, pin) else ""
  }

  /** The first bundled module of the catalog that can serve the policy. */
  function PlurisDefault(catalog: seq<Module>, urn: string, os: string): Pick {
    if catalog == [] then Pick("", "", NoSource)
    else
      var m := catalog[0];
      var version := PickVersion(m, "");
      if m.origin == BUNDLED && Compatible(m, urn, os) && version != "" then Pick(m.id, version, FromPluris)
      else PlurisDefault(catalog[1..], urn, os)
  }

  function ResolveBindingModule(
    overrideID: string, overrideVersion: string, tenantDefault: T.TenantDefault,
    urn: string, os: string, catalog: seq<Module>): Pick
  {
    var pinned := Offer(catalog, overrideID, overrideVersion, urn, os);
    if pinned != "" then Pick(overrideID, pinned, FromBinding)
    else
      var version := Offer(catalog, tenantDefault.moduleID, tenantDefault.moduleVersion, urn, os);
      if version != "" then Pick(tenantDefault.moduleID, version, FromTenant)
      else PlurisDefault(catalog, urn, os)
  }

  // ---------------------------------------------------------------------
  // Versions
  // ---------------------------------------------------------------------

  /** No published version comes before position `i`, which is published. */
  ghost predicate IsNewestPublished(versions: seq<ModuleVersion>, i: int) {
    0 <= i < |versions| && versions[i].status == PUBLISHED && forall j :: 0 <= j < i ==> versions[j].status != PUBLISHED
  }

  /** Position `i` is the first version with the name `requested`. */
  ghost predicate IsFirstNamed(versions: seq<ModuleVersion>, requested: string, i: int) {
    0 <= i < |versions| && versions[i].version == requested && forall j :: 0 <= j < i ==> versions[j].version != requested
  }

  lemma {:induction false} NewestPublishedExactly(versions: seq<ModuleVersion>)
    ensures (exists i :: IsNewestPublished(versions, i)) <==> exists v :: v in versions && v.status == PUBLISHED
    ensures forall i :: IsNewestPublished(versions, i) ==> NewestPublished(versions) == versions[i].version
    ensures (forall v :: v in versions ==> v.status != PUBLISHED) ==> NewestPublished(versions) == ""
  {
    if versions == [] {
    } else {
      var rest := versions[1..];
      NewestPublishedExactly(rest);
      if versions[0].status == PUBLISHED {
        assert IsNewestPublished(versions, 0);
      } else {
        forall i | IsNewestPublished(versions, i) ensures NewestPublished(versions) == versions[i].version {
          assert forall j :: 0 <= j < i - 1 ==> rest[j] == versions[j + 1];
          assert IsNewestPublished(rest, i - 1);
        }
        if i :| IsNewestPublished(rest, i) {
          assert forall j :: 0 < j < |versions| ==> versions[j] == rest[j - 1];
          assert IsNewestPublished(versions, i + 1);
        }
      }
    }
  }

  lemma {:induction false} PinnedExactly(versions: seq<ModuleVersion>, requested: string, i: int)
    requires IsFirstNamed(versions, requested, i)
    ensures Pinned(versions, requested) == if Deployable(versions[i]) then requested else ""
    decreases i
  {
    if i == 0 {
    } else {
      assert forall j :: 0 <= j < i ==> versions[1..][j] == versions[j + 1];
      PinnedExactly(versions[1..], requested, i - 1);
    }
  }

  lemma {:induction false} PinnedNeedsName(versions: seq<ModuleVersion>, requested: string)
    ensures Pinned(versions, requested) != "" ==> exists i :: IsFirstNamed(versions, requested, i) && Deployable(versions[i])
  {
    if versions != [] && versions[0].version != requested {
      PinnedNeedsName(versions[1..], requested);
      if i :| IsFirstNamed(versions[1..], requested, i) && Deployable(versions[1..][i]) {
        assert forall j :: 0 < j < |versions| ==> versions[j] == versions[1..][j - 1];
        assert IsFirstNamed(versions, requested, i + 1);
      }
    } else if versions != [] {
      assert IsFirstNamed(versions, requested, 0);
    }
  }

  /** With unique names, a pick is never a draft or revoked version, and a
      superseded one only by explicit pin; a pin succeeds exactly when a
      deployable version bears its name. */
  lemma PicksAreDeployable(m: Module, requested: string, v: ModuleVersion)
    requires NamesUnique(m.versions) && v in m.versions
    ensures PickVersion(m, requested) != "" && v.version == PickVersion(m, requested) ==>
              Deployable(v) && (v.status == SUPERSEDED ==> requested == v.version)
    ensures requested != "" && v.version == requested ==> (PickVersion(m, requested) == requested <==> Deployable(v))
  {
    var vs := m.versions;
    var k :| 0 <= k < |vs| && vs[k] == v;
    if requested == "" {
      NewestPublishedExactly(vs);
      if i :| IsNewestPublished(vs, i) {
        assert v.version == vs[i].version ==> i == k;
      } else {
        assert v.status != PUBLISHED;
      }
    } else {
      PinnedNeedsName(vs, requested);
      if v.version == requested {
        assert IsFirstNamed(vs, requested, k);
        PinnedExactly(vs, requested, k);
      }
    }
  }

  // ---------------------------------------------------------------------
  // Levels
  // ---------------------------------------------------------------------

  lemma {:induction false} FindsFirst(catalog: seq<Module>, id: string)
    ensures match FindModule(catalog, id)
            case None => forall i :: 0 <= i < |catalog| ==> catalog[i].id != id
            case Some(m) => exists i :: 0 <= i < |catalog| && catalog[i] == m && m.id == id
                              && forall j :: 0 <= j < i ==> catalog[j].id != id
  {
    if catalog == [] || catalog[0].id == id {
    } else {
      FindsFirst(catalog[1..], id);
      var rest := catalog[1..];
      match FindModule(rest, id)
      case None =>
        assert forall i :: 0 < i < |catalog| ==> catalog[i] == rest[i - 1];
      case Some(m) =>
        var i :| 0 <= i < |rest| && rest[i] == m && m.id == id && forall j :: 0 <= j < i ==> rest[j].id != id;
        assert catalog[i + 1] == m;
        assert forall j :: 0 < j < i + 1 ==> catalog[j] == rest[j - 1];
    }
  }

  /** Module `i` of the catalog can serve as the bundled default. */
  predicate CanDefault(catalog: seq<Module>, i: int, urn: string, os: string) {
    0 <= i < |catalog| && catalog[i].origin == BUNDLED && Compatible(catalog[i], urn, os) && PickVersion(catalog[i], "") != ""
  }

  lemma {:induction false} DefaultIsFirst(catalog: seq<Module>, urn: string, os: string)
    ensures PlurisDefault(catalog, urn, os).source == NoSource <==> forall i :: !CanDefault(catalog, i, urn, os)
    ensures PlurisDefault(catalog, urn, os).source != NoSource ==>
              exists i :: CanDefault(catalog, i, urn, os) && (forall j :: 0 <= j < i ==> !CanDefault(catalog, j, urn, os))
                && PlurisDefault(catalog, urn, os) == Pick(catalog[i].id, PickVersion(catalog[i], ""), FromPluris)
  {
    if catalog == [] {
    } else {
      var rest := catalog[1..];
      DefaultIsFirst(rest, urn, os);
      forall i | 0 <= i < |rest| ensures CanDefault(rest, i, urn, os) <==> CanDefault(catalog, i + 1, urn, os) {}
      if CanDefault(catalog, 0, urn, os) {
      } else if PlurisDefault(rest, urn, os).source != NoSource {
        var i :| CanDefault(rest, i, urn, os) && (forall j :: 0 <= j < i ==> !CanDefault(rest, j, urn, os))
                 && PlurisDefault(rest, urn, os) == Pick(rest[i].id, PickVersion(rest[i], ""), FromPluris);
        assert CanDefault(catalog, i + 1, urn, os);
        forall j | 0 <= j < i + 1 ensures !CanDefault(catalog, j, urn, os) {
          assert j > 0 ==> CanDefault(catalog, j, urn, os) == CanDefault(rest, j - 1, urn, os);
        }
      } else {
        forall i ensures !CanDefault(catalog, i, urn, os) {
          assert 0 < i < |catalog| ==> CanDefault(catalog, i, urn, os) == CanDefault(rest, i - 1, urn, os);
        }
      }
    }
  }

  /** A level offers something exactly when the first module with its ID is
      compatible and yields a version for its pin. */
  ghost predicate LevelServes(catalog: seq<Module>, id: string, pin: string, urn: string, os: string) {
    id != "" && exists i :: 0 <= i < |catalog| && catalog[i].id == id
                  && (forall j :: 0 <= j < i ==> catalog[j].id != id)
                  && Compatible(catalog[i], urn, os) && PickVersion(catalog[i], pin) != ""
  }

  lemma OffersExactly(catalog: seq<Module>, id: string, pin: string, urn: string, os: string)
    ensures Offer(catalog, id, pin, urn, os) != "" <==> LevelServes(catalog, id, pin, urn, os)
  {
    FindsFirst(catalog, id);
  }

  /** The levels are tried in order; a lower one is used exactly when those
      above cannot serve, and the binding fails exactly when none can. */
  lemma LevelsExactly(overrideID: string, overrideVersion: string, td: T.TenantDefault, urn: string, os: string, catalog: seq<Module>)
    ensures var pick := ResolveBindingModule(overrideID, overrideVersion, td, urn, os, catalog);
            var byBinding := LevelServes(catalog, overrideID, overrideVersion, urn, os);
            var byTenant := LevelServes(catalog, td.moduleID, td.moduleVersion, urn, os);
            var byPluris := exists i :: CanDefault(catalog, i, urn, os);
            && (pick.source == FromBinding <==> byBinding)
            && (pick.source == FromTenant <==> !byBinding && byTenant)
            && (pick.source == FromPluris <==> !byBinding && !byTenant && byPluris)
            && (pick.source == NoSource <==> !byBinding && !byTenant && !byPluris)
            && (pick.source == FromBinding ==> pick.moduleID == overrideID)
            && (pick.source == FromTenant ==> pick.moduleID == td.moduleID)
  {
    OffersExactly(catalog, overrideID, overrideVersion, urn, os);
    OffersExactly(catalog, td.moduleID, td.moduleVersion, urn, os);
    DefaultIsFirst(catalog, urn, os);
  }

  /** Whatever level it comes from, the pick names a compatible module of the
      catalog and, with unique version names, a version that may be deployed;
      a superseded one only where a level pinned it. */
  lemma PickIsSound(overrideID: string, overrideVersion: string, td: T.TenantDefault, urn: string, os: string, catalog: seq<Module>)
    returns (m: Module)
    requires forall n :: n in catalog ==> NamesUnique(n.versions)
    requires ResolveBindingModule(overrideID, overrideVersion, td, urn, os, catalog).source != NoSource
    ensures var pick := ResolveBindingModule(overrideID, overrideVersion, td, urn, os, catalog);
            && m in catalog && m.id == pick.moduleID && Compatible(m, urn, os)
            && (pick.source == FromPluris ==> m.origin == BUNDLED)
            && (exists v :: v in m.versions && v.version == pick.moduleVersion)
            && forall v :: v in m.versions && v.version == pick.moduleVersion ==>
                 Deployable(v) &&
                 (v.status == SUPERSEDED ==>
                    (pick.source == FromBinding && overrideVersion == v.version)
                    || (pick.source == FromTenant && td.moduleVersion == v.version))
  {
    var pick := ResolveBindingModule(overrideID, overrideVersion, td, urn, os, catalog);
    var pin := if pick.source == FromBinding then overrideVersion
               else if pick.source == FromTenant then td.moduleVersion else "";
    LevelsExactly(overrideID, overrideVersion, td, urn, os, catalog);
    if pick.source == FromPluris {
      DefaultIsFirst(catalog, urn, os);
      var i :| CanDefault(catalog, i, urn, os) && pick == Pick(catalog[i].id, PickVersion(catalog[i], ""), FromPluris);
      m := catalog[i];
    } else {
      FindsFirst(catalog, pick.moduleID);
      m := FindModule(catalog, pick.moduleID).value;
    }
    assert PickVersion(m, pin) == pick.moduleVersion != "";
    PickNamesAVersion(m, pin);
    forall v | v in m.versions && v.version == pick.moduleVersion
      ensures Deployable(v) && (v.status == SUPERSEDED ==> pin == v.version)
    {
      PicksAreDeployable(m, pin, v);
    }
  }

  lemma PickNamesAVersion(m: Module, requested: string)
    requires PickVersion(m, requested) != ""
    ensures exists v :: v in m.versions && v.version == PickVersion(m, requested)
  {
    if requested == "" {
      NewestPublishedExactly(m.versions);
      if i :| IsNewestPublished(m.versions, i) {
        assert m.versions[i] in m.versions;
      } else {
        assert false;
      }
    } else {
      PinnedNeedsName(m.versions, requested);
      var i :| IsFirstNamed(m.versions, requested, i) && Deployable(m.versions[i]);
      PinnedExactly(m.versions, requested, i);
      assert m.versions[i] in m.versions;
    }
  }

  /** A module is compatible when it lists the policy, and the OS or any OS
      where one is asked for. */
  lemma CompatibleExactly(m: Module, urn: string, os: string)
    ensures Compatible(m, urn, os) <==>
              && (exists i :: 0 <= i < |m.satisfies| && m.satisfies[i] == urn)
              && (os == "" || exists i :: 0 <= i < |m.targetOS| && (m.targetOS[i] == "any" || m.targetOS[i] == os))
  {
    if m.SupportsOS(os) {
      var i :| 0 <= i < |m.targetOS| && (m.targetOS[i] == "any" || m.targetOS[i] == os);
    }
  }

  /** The pin that applies at the level a pick comes from. */
  function PinOf(source: Source, overrideVersion: string, td: T.TenantDefault): string {
    match source
    case FromBinding => overrideVersion
    case FromTenant => td.moduleVersion
    case _ => ""
  }

  /** A pin is honoured to the letter: the pick is the pinned version, which the
      served module lists as published or superseded. Without a pin, and at the
      bundled level, it is the first published version of the served module. */
  lemma PinIsHonoured(overrideID: string, overrideVersion: string, td: T.TenantDefault, urn: string, os: string, catalog: seq<Module>)
    returns (m: Module, k: nat)
    requires ResolveBindingModule(overrideID, overrideVersion, td, urn, os, catalog).source != NoSource
    ensures var pick := ResolveBindingModule(overrideID, overrideVersion, td, urn, os, catalog);
            var pin := PinOf(pick.source, overrideVersion, td);
            && m in catalog && m.id == pick.moduleID && Compatible(m, urn, os) && k < |m.versions|
            && (pick.source != FromPluris ==> FindModule(catalog, pick.moduleID) == Some(m))
            && pick.moduleVersion == m.versions[k].version
            && if pin != "" then
                 && pick.moduleVersion == pin && IsFirstNamed(m.versions, pin, k)
                 && (m.versions[k].status == PUBLISHED || m.versions[k].status == SUPERSEDED)
               else IsNewestPublished(m.versions, k)
  {
    var pick := ResolveBindingModule(overrideID, overrideVersion, td, urn, os, catalog);
    var pin := PinOf(pick.source, overrideVersion, td);
    LevelsExactly(overrideID, overrideVersion, td, urn, os, catalog);
    if pick.source == FromPluris {
      DefaultIsFirst(catalog, urn, os);
      var i :| CanDefault(catalog, i, urn, os) && pick == Pick(catalog[i].id, PickVersion(catalog[i], ""), FromPluris);
      m := catalog[i];
    } else {
      FindsFirst(catalog, pick.moduleID);
      m := FindModule(catalog, pick.moduleID).value;
    }
    k := PickedAt(m, pin);
  }

  lemma PickedAt(m: Module, pin: string) returns (k: nat)
    requires PickVersion(m, pin) != ""
    ensures k < |m.versions| && m.versions[k].version == PickVersion(m, pin)
    ensures pin != "" ==> PickVersion(m, pin) == pin && IsFirstNamed(m.versions, pin, k) && Deployable(m.versions[k])
    ensures pin == "" ==> IsNewestPublished(m.versions, k)
  {
    if pin == "" {
      NewestPublishedExactly(m.versions);
      assert exists v :: v in m.versions && v.status == PUBLISHED;
      k :| IsNewestPublished(m.versions, k);
    } else {
      PinnedNeedsName(m.versions, pin);
      k :| IsFirstNamed(m.versions, pin, k) && Deployable(m.versions[k]);
    }
  }
}
