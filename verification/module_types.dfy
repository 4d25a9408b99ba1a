/** The catalog entities of policy modules that the dependency resolver and the
    binding resolution both read. A module's versions are kept newest first by
    convention only; nothing in the code enforces it. */
module ModuleTypes {
  import opened Wrappers

  const ANY_OS := "any"
  const BUNDLED := "bundled"
  const DRAFT := "draft"
  const PUBLISHED := "published"
  const SUPERSEDED := "superseded"
  const REVOKED := "revoked"

  datatype Dependency = Dependency(moduleID: string, versionConstraint: string)

  datatype ModuleVersion = ModuleVersion(
    version: string,
    dependencies: seq<Dependency>,
    conflicts: seq<string>,
    status: string)

  datatype Module = Module(
    id: string,
    targetOS: seq<string>,
    satisfies: seq<string>,
    origin: string,
    versions: seq<ModuleVersion>)
  {
    /** The head of the version list, whatever its status. */
    function LatestVersion(): Option<ModuleVersion> {
      if versions == [] then None else Some(versions[0])
    }

    predicate SatisfiesURN(urn: string) {
      urn in satisfies
    }

    predicate SupportsOS(os: string) {
      ANY_OS in targetOS || os in targetOS
    }
  }

  /** Version strings identify versions, as the database constraint has it. */
  ghost predicate NamesUnique(versions: seq<ModuleVersion>) {
    forall i, j :: 0 <= i < j < |versions| ==> versions[i].version != versions[j].version
  }
}
