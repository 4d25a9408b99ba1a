# Pluris: verified models of the algorithms and protocols behind the console

Pluris manages devices through policy modules. Most of the repository is
generated SQL glue, handlers and templates; the logic that can be wrong in
interesting ways sits in a few places, which this project models in Dafny:

| file | what it models |
|---|---|
| `resolver.dfy` | the dependency resolver: three-colour search, install order, conflict pass |
| `resolver_order.dfy` | what a plan is without the search: versions taken, order of the modules, which defect is reported |
| `version_tables.dfy` | module versions with their scripts, actions and conditions, one function per SQL statement |
| `version_store.dfy` | the same statements as methods that change the tables in place, and the publish request |
| `version_statements.dfy` | what each statement does to rows and columns, and what undisturbed requests and resets do |
| `version_lifecycle.dfy` | runs: every interleaving of statements, two-phase publish requests, full resets and seed publishes |
| `version_seeding.dfy` | the loop that seeds the versions of a bundled module |
| `version_history.dfy` | what a run may do to versions that left draft, and the exact conditions on its promises |
| `binding_resolution.dfy` | which module and version serve a binding: override, tenant default, bundled default |
| `deployed_catalog.dfy` | what the lifecycle guarantees to a binding that reads the catalog |
| `tenant_defaults.dfy` | the tenant default store under composite keys, with its in-place sort |
| `category_tree.dfy` | the policy tree on the heap, built by insertion |
| `category_order.dfy` | what the sidebar navigator shows of that tree, and when it follows the catalog |
| `applicability.dfy`, `applicability_laws.dfy` | the three-valued applicability engine and its laws |
| `login_lockout.dfy` | login requests as interleaved statements on one account |
| `parameter_paths.dfy` | the canonical path index, its printer and its parser |
| `parameter_visibility.dfy` | which parameters a user may see, by definition and by path |

`module_types.dfy`, `wrappers.dfy` and `orderings.dfy` hold shared types and the
byte-wise string order.

## How the models are shaped

Code that changes state is a method on a class or with loops, proved against a
function on values; the theorems are about that function, so they hold of the
method. Runs are sequences of atomic steps: one SQL statement, one transaction,
or one read is one step, and a theorem about runs speaks of every sequence of
them. Walks over Go maps pick the next key arbitrarily, so what is proved holds
for every iteration order.

Every SQL statement is a method of `VersionStore.Store`, proved against its
function in `VersionTables`, whose effect `VersionStatements` spells out, and
shown to keep the store in order; only those that say more than their guard have
a row in the table below.

`publishSeq` and `publications` are history variables: they count publications,
because the stored timestamps have second granularity and decide nothing.

## Where code and documentation disagree

The models follow the code. For each difference there is the exact condition
under which the documented promise holds, and an input at which it fails.

- The resolver's comments and messages speak of published versions
  (`catalog/policymodules/resolver.go:30-31`, and the error text at line 84),
  but `LatestVersion` is the head of the list whatever its status. A plan picks
  published versions if and only if every module of the closure has a published
  head: `PicksPublishedExactly`. `PicksMayBeDrafts` plans an unpublished draft.
- "At most one published version per module"
  (`pkg/services/policymodules.go:630-634`) holds throughout a run if and only
  if each publish by the seeding finds its module without a published version:
  `OnePublishedExactly`, and `SeedTwice` for a run that breaks it. The seed list
  is said to be seeded with its first version only
  (`pkg/services/policymodules.go:775`), but the loop at line 963 publishes all
  of them: `SeedingKeepsOneExactly`.
- `Publish` reads the version name and the apply script before its transaction.
  A draft that is renamed in between supersedes its predecessor under a name
  that it no longer bears. `SuccessorsExistExactly` gives the exact condition
  under which `superseded_by_version` leads to the newly published version or
  another later one; in `RenameRace` a version is superseded under its own name,
  so that following the names goes round in a ring.
- "Publishing requires an apply script" holds over a run exactly when every
  commit and every seed publish finds the script and no full reset deletes it
  from a version that was published meanwhile: `ApplyPresentExactly`.
- `FullReset` checks for a draft and then runs two deletes without a state
  guard. `FrozenExactly` shows that these are the only way in which an issued
  version changes, and `ResetRace` is a run in which it happens.
- The order of traversal of the category tree is said to match the catalog
  (`catalog/policies/types.go:97-98`). The sidebar navigator
  (`web/templates/pages.templ:814-850`) lists the children of a node before its
  own "(direct policies)" and shows nothing of the root's own. It follows the
  catalog if and only if every policy has a category and the list is grouped by
  heading with each heading's own policies last: `TraversalMatchesExactly`.
  `TraversalCanDiffer` and `DirectPoliciesComeLast` are lists that it reorders.
- The stamped permission of a mounted definition is said never to be empty when
  its schema declares a default (`catalog/params/permissions.go:55-57`). A path
  with an empty part or a slash inside a part cannot be parsed back and is
  stamped with no permission at all: `StampIsDeclaredExactly`, and
  `SlashedSectionIsOpen` for a registry in which that happens.

Some laws one might expect hold under conditions that the code does not hide:

- Complementary operators negate a verdict exactly when no failed script run
  decides it, as a failed run fails every operator by design; order comparisons
  also need numbers other than NaN: `ComplementNegatesExactly`,
  `OrderComplementsExactly`, `ComplementedGroupExactly`, with
  `FailedRunBreaksComplement` and `NaNBreaksComplement` as inputs.
- The tenant default store is a map from tenant and URN for tenant IDs without a
  bar. Keys collide exactly as `KeysCollideExactly` says, for instance in
  `BarsMixTenants`.

## Model

| member | source | states |
|---|---|---|
| DependencyResolver.ResolvesExactly | catalog/policymodules/resolver.go:47-130 | Success if and only if every module reachable from the selection through head-version dependencies exists with a version, no reachable dependency ring exists, and no closure member lists another one as a conflict |
| DependencyResolver.PlanCorrect | catalog/policymodules/resolver.go:88-106 | The order is exactly the closure, free of duplicates, each dependency before its dependents; the picks are the head versions of exactly these modules; the transitive list is the order without the selected IDs |
| DependencyResolver.ErrorsAreGenuine | catalog/policymodules/resolver.go:70-127 | A ring error carries a dependency walk from a selected module whose last element occurs earlier in it, a missing-dependency error a repetition-free walk ending at an absent or versionless module, a conflict error a declared pair inside a complete acyclic closure; each code occurs only when the closure has that defect |
| DependencyResolver.SubselectionResolves | catalog/policymodules/resolver.go:102-106 | The verdict is inherited by every selection drawn from a resolvable one, so order and repetition in the selection do not matter |
| DependencyResolver.ReplayIsFixedPoint | catalog/policymodules/resolver.go:69-106 | Resolving a plan's own order reproduces the order and the picks, with nothing added |
| DependencyResolver.SearchVerdict | catalog/policymodules/resolver.go:69-106 | Before the conflict pass: the search finishes exactly on complete acyclic closures and has then emitted exactly the closure |
| DependencyResolver.SearchFollowsInstallOrder | catalog/policymodules/resolver.go:88-99 | On any install order the search emits the modules in that very order |
| DependencyResolver.OrderIsClosure | catalog/policymodules/resolver.go:60-61 | An install order that holds the selection and nothing outside its closure is the closure, and proves that it is complete and free of rings |
| DependencyResolver.WitnessRefutes | catalog/policymodules/resolver.go:70-86 | A reported ring or missing module rules out every plan for the selection |
| DependencyResolver.SearchFromKeeps | catalog/policymodules/resolver.go:86-99 | Visiting one module keeps the colours in step with stack and order, keeps the emitted list an install order, and leaves the module and all it depends on emitted |
| DependencyResolver.SearchFromWitness | catalog/policymodules/resolver.go:70-92 | A failing visit reports the stack it was called with, followed by a walk to the defect |
| DependencyResolver.IndexKeepsLast | catalog/policymodules/resolver.go:48-52 | With duplicate IDs the lookup table holds the last module of the catalog |
| DependencyResolver.PicksPublishedExactly | catalog/policymodules/resolver.go:82-95 | For every selection with a plan: all picks are published versions if and only if every module of the closure has a published version at its head |
| DependencyResolver.PicksMayBeDrafts | catalog/policymodules/types.go:290-298 | A module whose head version is a draft is planned with that draft although it has a published version |
| DependencyResolver.BuildIndex | catalog/policymodules/resolver.go:48-52 | The indexing loop builds the table of `IndexKeepsLast` |
| DependencyResolver.Search.Visit | catalog/policymodules/resolver.go:68-100 | The visit closure, updating colours, order, picks and transitive list in place, does what the search on values does, for every state it may be called in |
| DependencyResolver.ConflictPass | catalog/policymodules/resolver.go:108-127 | The nested loops report the first conflicting pair in plan order, and nothing exactly when there is none |
| DependencyResolver.Resolve | catalog/policymodules/resolver.go:47-130 | The whole run: index, search from each selected ID, conflict pass, with the first error returned |
| ResolverOrder.HeadsAreFirst | catalog/policymodules/types.go:290-298 | Of a module's list the resolver reads the first version, whatever its status, and nothing else; its dependency edges are that version's |
| ResolverOrder.PlanTakesFirstVersions | catalog/policymodules/resolver.go:82-95 | Every planned module has versions and is planned at the first of them; each of its dependencies stands before it and no member of the plan is among its conflicts |
| ResolverOrder.AddedExactly | catalog/policymodules/resolver.go:94-98 | The transitive additions are the planned modules that were not selected, in plan order, and the picks cover exactly the plan |
| ResolverOrder.PlansCompose | catalog/policymodules/resolver.go:102-106 | Selecting one more module appends what its own plan lists and the plan so far does not, in the order of its own plan |
| ResolverOrder.PlanOfOne | catalog/policymodules/resolver.go:86-95 | The plan of one module is the plan of its dependencies in their declared order, and then the module; with the law above this determines the order of every plan |
| ResolverOrder.SearchOfOne | catalog/policymodules/resolver.go:86-95 | A module outside every ring is searched as its dependencies are, and a defect below it is reported behind its name |
| ResolverOrder.FirstDefectIsReported | catalog/policymodules/resolver.go:102-106 | A ring or gap found in the beginning of a selection is what the whole selection reports |
| ResolverOrder.DefectsDescend | catalog/policymodules/resolver.go:79-92 | An absent or versionless module is reported with its own code, and a defect below a module outside every ring with the module's name put in front of its path |
| ResolverOrder.FirstConflictExactly | catalog/policymodules/resolver.go:115-127 | The reported conflict is the first one declared by the first planned module that has one |
| VersionLifecycle.OnePublishedExactly | pkg/services/policymodules.go:628-641 | From every sound state and in every interleaving of statements, publish requests, resets and seed publishes: at no point has a module two published versions, if and only if it had not at the start and each seed publish finds no published version of its module |
| VersionLifecycle.AtMostOnePublishedWithoutSeeding | pkg/services/policymodules.go:628-641 | Without seed publishes no interleaving ever leads to two published versions of a module |
| VersionLifecycle.StepKeepsOneExactly | db/policy_modules.sql.go:1086-1292 | The same for one step |
| VersionLifecycle.PublishKeepsOneExactly | db/policy_modules.sql.go:1086-1109 | The publish statement by itself keeps one published version exactly when the module has no other one |
| VersionLifecycle.SeedPublishExactly | pkg/services/policymodules.go:994-996 | Publishing without superseding keeps one published version exactly when it does what the publish transaction would do |
| VersionLifecycle.TransactionKeepsOne | pkg/services/policymodules.go:664-694 | The publish transaction never leaves two published versions |
| VersionLifecycle.NewestThroughout | pkg/services/policymodules.go:628-641 | In runs whose seed publishes find no published version, the published version is always the most recently published one of its module |
| VersionLifecycle.NextKeeps | db/policy_modules.sql.go:1086-1164 | Every step keeps the invariant: version names are unique per module, child rows belong to existing versions, successor names stand only on superseded or revoked rows, pending requests are consistent |
| VersionLifecycle.RunKeeps | db/policy_modules.sql.go:1086-1164 | The invariant holds after every run |
| VersionLifecycle.PublishKeeps | pkg/services/policymodules.go:664-694 | The publish transaction keeps the tables in order for whatever module and version name its request read |
| VersionLifecycle.PublishedRows | db/policy_modules.sql.go:1086-1292 | The rows after a publish: the draft published, the published siblings superseded by the given name, every other row untouched |
| VersionLifecycle.TimestampsNeverDecideExactly | db/policy_modules.sql.go:367-372 | Under every assignment of publication times the latest published versions are all the published ones, if and only if no module has two of them |
| VersionLifecycle.StatesMoveForward | db/policy_modules.sql.go:1086-1164 | Once issued, a version never disappears and its state only moves forward over any run; revoked is absorbing |
| VersionLifecycle.PublishedOnce | db/policy_modules.sql.go:1099-1102 | Of several publishes of one draft, by requests or by seeding, exactly the first goes through; every later one, whatever happened in between, changes nothing |
| VersionLifecycle.PublishKeepsAPublishedVersion | pkg/services/policymodules.go:636-641 | No step but its revocation takes a module's last published version away |
| VersionHistory.FrozenExactly | db/policy_modules.sql.go:249-365 | Over any run an issued version keeps its fields, scripts, actions and conditions if and only if no unguarded delete of a full reset finds custom rows of it; at worst rows are lost, never altered |
| VersionHistory.StepFreezesExactly | pkg/services/policymodules_scripts.go:258-270 | The same for one step: only the two unguarded deletes can change an issued version |
| VersionHistory.SuccessorsExistExactly | pkg/services/policymodules.go:642-694 | From every sound state, at every point of a run: each superseded version names a sibling published strictly later, if and only if it did at the start and each commit supersedes under the current name of its draft or one that a later publication bears |
| VersionHistory.SuccessorsExistWhenNamesAreCurrent | pkg/services/policymodules.go:642-694 | While seed publishes find no published version, that condition is that each superseding commit still finds the name that its request read |
| VersionHistory.StepKeepsSuccessorsExactly | pkg/services/policymodules.go:683-692 | The same for one step |
| VersionHistory.StaleNamesNeverLead | pkg/services/policymodules.go:683-692 | Where the published version is the newest one, a stale name never leads to a later publication |
| VersionHistory.CommitKeepsSuccessors | pkg/services/policymodules.go:683-692 | A commit under a name that leads on keeps every successor link valid |
| VersionHistory.StaleCommitBreaksSuccessors | pkg/services/policymodules.go:683-692 | Any other commit leaves some superseded version without a successor |
| VersionHistory.ChainsAreFinite | db/policy_modules.sql.go:1267-1272 | In a run whose commits supersede under names that lead on, following the stored `superseded_by_version` from version to version never revisits one and takes at most as many steps as there were publications |
| VersionHistory.NamesLeadForward | db/policy_modules.sql.go:1267-1272 | Given unique names and existing successors, every stored successor name leads to exactly one version of the module, and that one was published strictly later |
| VersionHistory.ChainAscends | db/policy_modules.sql.go:1267-1272 | So each step along stored names goes to a strictly later publication |
| VersionHistory.RenameRace | pkg/services/policymodules.go:642-694 | A run after which a superseded version names itself, so that following the names goes round in a ring: the draft was renamed while its publish was pending and another version took the name |
| VersionHistory.ApplyPresentExactly | pkg/services/policymodules.go:650-662 | From every sound state issued versions have their apply script throughout a run if and only if they had it at the start, every commit and seed publish finds it, and no reset deletes it |
| VersionHistory.StepKeepsApplyExactly | pkg/services/policymodules.go:650-694 | The same for one step |
| VersionHistory.ResetRace | pkg/services/policymodules_scripts.go:258-270 | A run after which a published version has lost its apply script to a full reset |
| VersionSeeding.SeedVersionsExactly | pkg/services/policymodules.go:963-998 | Seeding a new module goes through exactly when its version names differ, and then every listed version is published in list order, other modules unchanged |
| VersionSeeding.SeedingKeepsOneExactly | pkg/services/policymodules.go:771-776 | It leaves at most one published version exactly when at most one version is listed |
| VersionSeeding.SeededScriptsExactly | pkg/services/policymodules.go:980-993 | Every seeded version has exactly its listed scripts, with the content listed last, and other scripts are kept |
| VersionSeeding.SeedingStopsAtRepetition | pkg/services/policymodules.go:976-979 | A repeated name ends the loop and leaves what the versions before it left |
| VersionSeeding.SeedTwice | pkg/services/policymodules.go:963-998 | A run that seeds two versions of one module, both of them published at the end |
| VersionHistory.StepsAreLocal | db/policy_modules.sql.go:201-365 | A statement changes nothing of any version but the one it names, drafts included |
| VersionStatements.RevokesExactly | db/policy_modules.sql.go:1149-1164 | Published and superseded versions become revoked, every other column and row kept, one row reported; otherwise nothing changes and none is reported |
| VersionStatements.RevocationTakesEffect | db/policy_modules.sql.go:1149-1164 | The same for a revocation in a run |
| VersionStatements.CreatesExactly | db/policy_modules.sql.go:104-157 | A free name gets a new draft with the given fields; a taken one changes nothing |
| VersionStatements.EditsExactly | db/policy_modules.sql.go:1327-1340 | A draft takes the new name and fields and keeps every other column; other states and taken names change nothing |
| VersionStatements.MatchesExactly | db/policy_modules.sql.go:1447-1458 | A draft takes the match mode and keeps every other column |
| VersionStatements.DiscardsExactly | db/policy_modules.sql.go:267-281 | A draft goes with all its child rows and with nothing else |
| VersionStatements.PublishesExactly | db/policy_modules.sql.go:1086-1109 | A draft becomes published by the given actor at the given time as the latest publication, every other column and row kept |
| VersionStatements.TransactsExactly | pkg/services/policymodules.go:664-694 | A commit that finds its draft publishes it, supersedes the other published rows of the module it read, and touches nothing else; any other commit does nothing |
| VersionStatements.UpsertsScriptExactly | db/policy_modules.sql.go:1519-1531 | A draft's script takes the given content and keeps an existing sequence number, other scripts kept |
| VersionStatements.RenamesExactly | db/policy_modules.sql.go:1111-1133 | The script is found whole under its new name and no longer under the old one; a missing script or a taken name changes nothing |
| VersionStatements.CustomDeletesExactly | db/policy_modules.sql.go:249-265 | The unguarded deletes take exactly the version's custom rows |
| VersionStatements.UndisturbedPublish | pkg/services/policymodules.go:642-694 | A request whose steps follow each other does the transaction with what the row holds, exactly on drafts with an apply script |
| VersionStatements.UndisturbedReset | pkg/services/policymodules_scripts.go:258-270 | A reset that nobody disturbs takes the custom rows of a draft and nothing of any other version |
| VersionHistory.RenameRoundTrip | db/policy_modules.sql.go:1111-1133 | Renaming a script to a free name and back restores the tables |
| VersionHistory.UpsertReadsBack | db/policy_modules.sql.go:1519-1531 | A second upsert replaces a script's content but keeps its sequence number; deleting it restores the tables |
| VersionHistory.ActionsReadBack | db/policy_modules.sql.go:1468-1481 | The same for actions |
| VersionHistory.ConditionsReadBack | db/policy_modules.sql.go:201-209 | An edited condition keeps its place, no second one can take it, and deleting it restores the tables but for the spent row ID |
| VersionStore.Store.DeleteDraftModuleVersion | db/policy_modules.sql.go:267-281 | Removes a draft together with its scripts, actions and conditions, row by row, and keeps names unique and at most one published version |
| VersionStore.Store.RevokeModuleVersion | db/policy_modules.sql.go:1149-1164 | Reports one row exactly for published and superseded versions and then revokes just that row; otherwise nothing changes |
| VersionStore.Store.PublishModuleVersion | db/policy_modules.sql.go:1086-1109 | Publishes exactly drafts; the store keeps one published version exactly when the module has no other one |
| VersionStore.Store.SupersedeCurrentPublishedVersion | db/policy_modules.sql.go:1267-1292 | The row-by-row update, in any order, supersedes exactly the module's published rows other than the excluded one |
| VersionStore.Store.PublishInTransaction | pkg/services/policymodules.go:664-694 | Publish first, then supersede: the store keeps unique names and at most one published version, and nothing at all changes when the row is no longer a draft |
| VersionStore.Store.Publish | pkg/services/policymodules.go:642-694 | An undisturbed request succeeds exactly on drafts with an apply script and reports which check failed otherwise, without changing anything; the store keeps unique names and at most one published version |
| VersionStore.Store.GetLatestPublishedVersion | db/policy_modules.sql.go:367-372 | For any tie-break it returns the one published version of the module, and none exactly when there is none |
| VersionStore.Store.SeedModuleVersions | pkg/services/policymodules.go:963-998 | The seeding loop on the store: it ends with at most one published version per module exactly when at most one version was listed |
| BindingResolution.LevelsExactly | catalog/policymodules/defaults.go:149-216 | Each level is used exactly when it can serve and no level above it can; the binding fails exactly when none can |
| BindingResolution.PickIsSound | catalog/policymodules/defaults.go:149-216 | With unique version names the pick is a compatible catalog module at a deployable version; a superseded one only where that level pinned it |
| BindingResolution.PinIsHonoured | catalog/policymodules/defaults.go:158-187 | A pin of the binding or the tenant is honoured to the letter, at a published or superseded version; without one, and at the bundled level, the pick is the first published version of the module served |
| BindingResolution.CompatibleExactly | catalog/policymodules/types.go:300-320 | Compatible means listing the policy, and any OS or the one asked for |
| BindingResolution.PicksAreDeployable | catalog/policymodules/defaults.go:228-266 | A pick is never a draft or revoked version; a pin succeeds exactly when the version of that name is published or superseded |
| BindingResolution.NewestPublishedExactly | catalog/policymodules/defaults.go:246-253 | The unpinned pick is the first published version of the list, and there is one exactly when some version is published |
| BindingResolution.PinnedExactly | catalog/policymodules/defaults.go:255-265 | A pin is decided by the first version of its name |
| BindingResolution.FindsFirst | catalog/policymodules/defaults.go:219-226 | Finds the first module of the catalog with the ID, or none exactly when there is none |
| BindingResolution.DefaultIsFirst | catalog/policymodules/defaults.go:189-211 | The bundled default is the first bundled, compatible module with a published version, and missing exactly when there is none |
| BindingResolution.OffersExactly | catalog/policymodules/defaults.go:158-187 | A level offers a version exactly when its first module of that ID is compatible and yields one |
| BindingResolution.PickNamesAVersion | catalog/policymodules/defaults.go:242-266 | A pick always names a version of the module |
| DeployedCatalog.PicksFollowLifecycle | pkg/services/policymodules.go:299-328 | After any lifecycle run from any sound state, seeding included, and for any listing order: an unpinned pick is published, and a pin succeeds exactly on published and superseded versions |
| DeployedCatalog.UnpinnedPickExactly | catalog/policymodules/defaults.go:246-253 | The unpinned pick is every published version of the module, for any listing order, exactly when there are not two of them |
| DeployedCatalog.RevokedIsNeverPicked | catalog/policymodules/defaults.go:228-266 | Once revoked, a version is never picked again, pinned or not, whatever run follows |
| DeployedCatalog.RevocationEndsPicks | db/policy_modules.sql.go:1149-1164 | Revoking a version that could be deployed takes it out of every later pick, pinned or not, whatever run follows |
| DeployedCatalog.HydratedAt | pkg/services/policymodules.go:299-328 | What the catalog says of a version is its row: name, manifest and state |
| DeployedCatalog.HydratedNamesUnique | pkg/services/policymodules.go:299-328 | Modules filled from tables in order have unique version names, as binding resolution needs |
| TenantDefaults.KeysCollideExactly | catalog/policymodules/defaults.go:50-52 | Two composite keys are equal exactly for equal pairs or when one tenant ID continues the other past a bar |
| TenantDefaults.KeysOfPlainTenants | catalog/policymodules/defaults.go:50-52 | The key is injective on tenant IDs without a bar |
| TenantDefaults.StoreIsTwoKeyMap | catalog/policymodules/defaults.go:74-101 | For such tenants the store is a map from tenant and URN: set, clear and set-to-empty change their own pair only, and a hit belongs to the pair asked for |
| TenantDefaults.BarsMixTenants | catalog/policymodules/defaults.go:50-80 | With a bar in the ID one tenant is answered with another one's default |
| TenantDefaults.StoreStaysConsistent | catalog/policymodules/defaults.go:85-101 | Every entry stays under its own key and names a module |
| TenantDefaults.ListingIsUnique | catalog/policymodules/defaults.go:54-72 | There is only one URN-sorted listing of a tenant, so map iteration order does not show |
| Orderings.LessExactly | catalog/policymodules/defaults.go:65-70 | The sorting order: ascending, by the first differing character, a proper prefix first |
| TenantDefaults.SortByURN | catalog/policymodules/defaults.go:65-70 | The in-place insertion sort by adjacent swaps yields a sorted permutation |
| TenantDefaults.SwapDown | catalog/policymodules/defaults.go:67-69 | One swap of the inner loop keeps everything but the moved entry in order |
| TenantDefaults.Store.TenantDefaults | catalog/policymodules/defaults.go:56-72 | For every iteration order the result is the strictly URN-sorted list of exactly the tenant's entries |
| TenantDefaults.Store.SetTenantDefault | catalog/policymodules/defaults.go:82-93 | Upserts, or removes when no module is named |
| TenantDefaults.Store.ClearTenantDefault | catalog/policymodules/defaults.go:95-101 | Removes the entry under the key |
| TenantDefaults.Store.TenantDefaultFor | catalog/policymodules/defaults.go:74-80 | Reads the entry under the key, or the zero default |
| CategoryTrees.BuildIsFaithful | catalog/policies/types.go:106-133 | For any list: each node holds exactly the policies of its category in list order, its children appear in order of first use, labels are distinct, no subtree is empty, and no policy is lost or doubled |
| CategoryTrees.PoliciesAfterInsert | catalog/policies/types.go:115-133 | An insertion appends to the node of its category and changes the policies of no other node |
| CategoryTrees.LabelsAtAfterInsert | catalog/policies/types.go:121-131 | An insertion adds at most one label along its path, last, and only where it is missing |
| CategoryTrees.InsertCounts | catalog/policies/types.go:115-133 | An insertion adds exactly one occurrence of its policy |
| CategoryTrees.InsertWellFormed | catalog/policies/types.go:121-132 | Distinct sibling labels, child paths and non-empty subtrees are kept |
| CategoryTrees.PathsFollowLabels | catalog/policies/types.go:127-130 | The node reached by a list of labels carries that path, and only the root can be empty |
| CategoryTrees.CategoryTree.InsertPolicy | catalog/policies/types.go:115-133 | The pointer insertion changes the heap tree as the insertion on values does, keeping the nodes disjoint |
| CategoryTrees.CategoryTree.InsertBelow | catalog/policies/types.go:121-125 | Descending into one child leaves its siblings untouched |
| CategoryTrees.CategoryTree.InsertNew | catalog/policies/types.go:127-132 | A missing label appends one new child that holds the policy |
| CategoryTrees.CategoryTree.ChildLabelled | catalog/policies/types.go:121-125 | Finds the first child with the label |
| CategoryTrees.BuildTree | catalog/policies/types.go:106-113 | The loop builds on the heap the tree of `BuildIsFaithful`, for any list of policies |
| CategoryOrder.TraversalMatchesExactly | web/templates/pages.templ:814-850 | The navigator follows the catalog if and only if every policy has a category and the list is grouped by heading with each heading's own policies last |
| CategoryOrder.NavigatorShowsFiled | web/templates/pages.templ:814-850 | The navigator shows every policy that has a category as often as it is listed, and none of the others |
| CategoryOrder.TraversalCanDiffer | catalog/policies/types.go:97-98 | A list that takes up a heading again is shown in another order |
| CategoryOrder.DirectPoliciesComeLast | catalog/policies/types.go:97-98 | A list with a heading's own policy before one filed deeper is shown in another order, and the reverse list in its own |
| CategoryOrder.RightEdgeAppends | web/templates/pages.templ:827-850 | An insertion on the right edge, under headings without policies of their own or a later sibling, is shown after everything else |
| CategoryOrder.ElsewhereDoesNot | web/templates/pages.templ:827-850 | After any other insertion the last policy shown is of another category |
| CategoryOrder.NodesAreHeadings | catalog/policies/types.go:115-133 | A heading has a node exactly when some policy is filed at or below it |
| CategoryOrder.RightEdgeIffOpen | web/templates/pages.templ:827-850 | An insertion point is on the right edge exactly when no heading above it has policies of its own and every heading on its way that has a node is still open in the policy shown last |
| Applicability.ParamKey | catalog/dependencygroups/eval.go:10-17 | The longest slash-free suffix of a path |
| Applicability.EvalGroupAll | catalog/dependencygroups/eval.go:183-197 | The early-exit loop computes the minimum of the verdicts |
| Applicability.EvalGroupAny | catalog/dependencygroups/eval.go:199-216 | The early-exit loop computes the maximum of the verdicts |
| Applicability.EvalGroup | catalog/dependencygroups/eval.go:159-168 | Any-mode takes the maximum, every other mode the minimum |
| Applicability.EligibleFor | catalog/dependencygroups/eval.go:218-286 | The flag-keeping loop lists the known groups per role in link order and returns the three-valued conjunction of "some platform, or none linked" and "all requirements" |
| ApplicabilityLaws.StatusStands | catalog/dependencygroups/eval.go:222-286 | Further facts never change an eligible or ineligible module |
| ApplicabilityLaws.GroupVerdictStands | catalog/dependencygroups/eval.go:159-216 | Further facts never change a group's pass or fail |
| ApplicabilityLaws.DevicesRefine | catalog/dependencygroups/eval.go:28-157 | Further facts never change a condition's pass or fail |
| ApplicabilityLaws.AggregatesAreBounds | catalog/dependencygroups/eval.go:183-216 | The group modes are greatest lower and least upper bounds in fail < unknown < pass, with the empty group as unit |
| ApplicabilityLaws.AggregatesOfAppend | catalog/dependencygroups/eval.go:183-216 | Adding a verdict meets or joins it |
| ApplicabilityLaws.GroupIgnoresOrder | catalog/dependencygroups/eval.go:183-216 | A group depends only on its set of conditions |
| ApplicabilityLaws.UndecidedExactly | catalog/dependencygroups/eval.go:28-157 | A condition is unknown exactly when its fact is missing, its operator is unknown, or its operand is missing, does not parse or does not compile; a failed run is never unknown |
| ApplicabilityLaws.TextOperatorsMean | catalog/dependencygroups/eval.go:72-95 | starts-with, ends-with, contains and not-contains pass exactly when the reported text splits, or does not, around the operand that way |
| ApplicabilityLaws.ConditionsMean | catalog/dependencygroups/eval.go:46-157 | For a reported value and no failed run: in passes exactly when some listed value is the reported one and not-in exactly when none is; equals, not-equals, exists and matches likewise |
| ApplicabilityLaws.DecidedByOperator | catalog/dependencygroups/eval.go:37-44 | A script condition reads its own result and every other one the fact under the last segment of its path; a failed run fails, anything else is put to the operator |
| ApplicabilityLaws.InfinitiesCompare | catalog/dependencygroups/eval.go:96-119 | The infinities lie outside all numbers and nothing compares with NaN |
| ApplicabilityLaws.NumbersCompare | catalog/dependencygroups/eval.go:96-119 | On finite numbers the four order operators are the order of the reals |
| ApplicabilityLaws.ComplementNegatesExactly | catalog/dependencygroups/eval.go:56-95 | Complementing in, equals or contains negates the condition exactly when no failed script run decides it |
| ApplicabilityLaws.OrderComplementsExactly | catalog/dependencygroups/eval.go:96-119 | Less and greater-or-equal, greater and less-or-equal, are complements exactly when neither a failed run nor NaN decides |
| ApplicabilityLaws.ComplementedGroupExactly | catalog/dependencygroups/eval.go:163-216 | De Morgan: complementing all conditions and swapping all and any negates the group, empty included, exactly when no script run failed or another condition settles the group alone |
| ApplicabilityLaws.FailedRunBreaksComplement | catalog/dependencygroups/eval.go:148-157 | A failed run fails a condition and its complement, and the groups made of them alike |
| ApplicabilityLaws.NaNBreaksComplement | catalog/dependencygroups/eval.go:96-119 | A NaN on either side fails both greater and less-or-equal |
| ApplicabilityLaws.NaNIsReported | catalog/dependencygroups/eval.go:96-119 | There is a parser, a condition and a report for which this happens |
| ApplicabilityLaws.AggregatesAreDual | catalog/dependencygroups/eval.go:183-216 | Minimum and maximum are dual under negation |
| ApplicabilityLaws.ScriptKeysDiffer | catalog/dependencygroups/eval.go:140-149 | Different conditions have different script result keys |
| ApplicabilityLaws.ScriptResultsArePrivate | catalog/dependencygroups/eval.go:140-157 | A script result is read by its own condition only, and by no device-fact condition whatever its path |
| ApplicabilityLaws.StatusMeaning | catalog/dependencygroups/eval.go:218-286 | Eligible and ineligible in terms of the links and their groups, both directions |
| ApplicabilityLaws.VerdictsComeFromLinks | catalog/dependencygroups/eval.go:227-252 | A verdict is collected exactly when some link in that role to a known group yields it |
| ApplicabilityLaws.ResultsSayTheirGroups | catalog/dependencygroups/eval.go:227-252 | Each counting link adds to the list of its role one result with its group's ID, slug, name, verdict and words, and nothing else is added |
| ApplicabilityLaws.StatusIgnoresLinkOrder | catalog/dependencygroups/eval.go:222-286 | The status ignores order and repetition of links |
| ApplicabilityLaws.RequirementNeverHelps | catalog/dependencygroups/eval.go:243-250 | Another requirement link never raises the status |
| ApplicabilityLaws.PlatformHurtsExactly | catalog/dependencygroups/eval.go:235-242 | Another platform link lowers the status exactly when it is the first one whose group is known and its verdict is worse than that of the requirements |
| LoginLockout.LockoutBound | console/handlers/auth.go:122-153 | From an open account below the threshold, with at most k requests in flight, in any number and interleaving, the count of wrong passwords stays within threshold - 1 + k; with no lock statement outstanding an account at the threshold is locked |
| LoginLockout.LockoutBoundForRequests | console/handlers/auth.go:122-153 | With n requests in all the count stays within threshold - 1 + n |
| LoginLockout.BoundIsReached | console/handlers/auth.go:143-151 | For every k some run of k requests reaches that bound, so it cannot be improved |
| LoginLockout.LockedAdmitsNobody | console/handlers/auth.go:131-133 | A locked account stays locked, and a request not admitted by then never verifies a password |
| LoginLockout.UndisturbedLogin | console/handlers/auth.go:122-153 | The steps of one request without interruption change every account as a whole request does, for both answers |
| LoginLockout.CountSinceSuccess | db/identities.sql.go:939-963 | In every interleaving the count is the number of failure statements since the last success statement |
| LoginLockout.StatementsAreSeparate | db/identities.sql.go:924-963 | Counting a failure never locks, the lock statement never counts, a success resets, and the checks write nothing |
| LoginLockout.LocksExactlyOnStreaks | console/handlers/auth.go:143-153 | Without overlap the account is locked exactly when some ten wrong passwords came in a row, and until then counts those since the last correct one |
| LoginLockout.FirstStreakIsTrailing | console/handlers/auth.go:143-153 | The streak that locks the account is the one in progress |
| LoginLockout.NextKeepsBound | db/identities.sql.go:924-963 | Each statement keeps the bound that counts outstanding lock statements and admitted requests |
| LoginLockout.Identity.LoginSubmit | console/handlers/auth.go:122-170 | One undisturbed request: its effect on the row and its answer in every case |
| LoginLockout.Identity.RecordLoginFailure | db/identities.sql.go:939-949 | Counts one wrong password |
| LoginLockout.Identity.LockIdentityIfThresholdExceeded | db/identities.sql.go:924-937 | Locks exactly at or above the threshold and never unlocks |
| LoginLockout.Identity.RecordLoginSuccess | db/identities.sql.go:951-963 | Resets the count and counts the login |
| ParameterPaths.BuildPathIndex | catalog/params/paths.go:38-70 | For every iteration order the walk succeeds exactly on registries without a clash, and yields an index that holds exactly their mounts |
| ParameterPaths.IndexIsUnique | catalog/params/paths.go:38-70 | There is only one such index |
| ParameterPaths.AddSchemaExactly | catalog/params/paths.go:42-69 | One more schema goes in exactly when the enlarged set is free of clashes |
| ParameterPaths.AddMountsExactly | catalog/params/paths.go:53-67 | Mounting succeeds exactly when no path and no parameter of the entity is taken twice, and then adds exactly these mounts |
| ParameterPaths.MountedAt | catalog/params/paths.go:51-66 | Every defined parameter that a section lists is mounted under entity, section and key |
| ParameterPaths.MountsInOrder | catalog/params/paths.go:51-66 | Mounts follow the sections, and in a section its parameters |
| ParameterPaths.FirstClashIsReported | catalog/params/paths.go:59-64 | The reported clash is the first one, and it is the path, or else the parameter of the entity, that is taken |
| ParameterPaths.NamelessAndDuplicateSchemas | catalog/params/paths.go:43-50 | A schema without a name, or with a name already taken, is refused as such |
| ParameterPaths.MountSchema | catalog/params/paths.go:43-68 | The nested loops do what mounting one schema after the other means, including which clash is reported |
| ParameterPaths.PrintedResolvesExactly | catalog/params/paths.go:75-100 | A printed path resolves, to what it was printed for, exactly when its three parts are non-empty and free of slashes |
| ParameterPaths.ResolvedWasPrinted | catalog/params/paths.go:75-100 | Whatever resolves is the printed path of its own entity and key |
| ParameterPaths.UnmountedExactly | catalog/params/paths.go:72-78 | The printed path is empty exactly for parameters that are not mounted |
| ParameterPaths.LookupFailsExactly | catalog/params/paths.go:89-100 | Malformed exactly for the wrong shape, unknown exactly for a well-shaped path outside the index |
| ParameterPaths.PathsParseExactly | catalog/params/paths.go:91-94 | A path splits into three non-empty segments exactly when its parts are plain, and then into those |
| ParameterPaths.PathsEndInTheirKey | catalog/dependencygroups/eval.go:10-17 | The applicability engine recovers the parameter key from a canonical path |
| ParameterVisibility.RoutesAgree | catalog/params/permissions.go:87-117 | A path is listed as visible exactly when some schema offers a visible definition at it |
| ParameterVisibility.VisibleExactly | catalog/params/paths.go:150-156 | A parameter is listed exactly when the definition's own permission, or else the schema's default, is empty or granted, or its path does not parse back |
| ParameterVisibility.StampedAt | catalog/params/permissions.go:66-82 | What is listed about a parameter: path, key and title of its section, and its definition with the path's permission |
| ParameterVisibility.OffersOwnVisiblePaths | catalog/params/permissions.go:61-102 | A schema offers exactly its own mount paths whose effective permission is granted |
| ParameterVisibility.GrantsFilterAgrees | catalog/params/permissions.go:28-36 | Filtering stamped definitions by grants gives the visible definitions in the same order |
| ParameterVisibility.GrantsFilterExactly | catalog/params/permissions.go:28-36 | Both filters keep what is open or granted, in list order |
| ParameterVisibility.MoreGrantsShowMore | catalog/params/permissions.go:107-117 | More grants never hide a path |
| ParameterVisibility.StampIsDeclaredExactly | catalog/params/permissions.go:55-57 | The stamp is the declared permission exactly when the path parses back or nothing was declared |
| ParameterVisibility.SlashedSectionIsOpen | catalog/params/permissions.go:55-57 | A section key with a slash leaves a parameter open to everybody in a registry that is otherwise in order and declares a permission |
| ParameterVisibility.FilterByGrants | catalog/params/permissions.go:28-36 | The loop keeps exactly the definitions that are open or granted, in order |
| ParameterVisibility.EffectiveDefs | catalog/params/permissions.go:61-85 | The nested loops stamp every mount of the schema, in section order then parameter order |
| ParameterVisibility.VisibleDefs | catalog/params/permissions.go:93-102 | Keeps exactly the stamped definitions that are open or granted, in order |
| ParameterVisibility.AllPaths | catalog/params/paths.go:102-133 | For every iteration order, the strictly sorted list of exactly the indexed paths |
| ParameterVisibility.VisiblePaths | catalog/params/permissions.go:107-117 | The strictly sorted list of exactly the indexed paths whose effective permission is open or granted |

## Left out

- List, search and count queries, row scanning, contexts and driver errors: plumbing.
- The creation of module rows: the seeding loop is modelled from the point where its module is new. Creating a version in another state than draft, `DeletePolicyModuleVersion`, and hard deletion or restoration of whole modules: outside the guarded protocol.
- `CacheVersionManifest`, the manifest text, signatures and CHECK constraints on columns: derived or static data.
- The number of rows that the supersede statement reports: the caller ignores it.
- The second half of `FullReset`, which restores defaults: it consists of guarded upserts, which runs already interleave freely.
- Actions are not tied to scripts: renaming a script leaves actions that name it alone, and the code promises nothing else.
- `VersionConstraint` and required phases: the resolver ignores both.
- Error message texts and the reason of a binding pick; the two missing-dependency messages are told apart by an error code of the model.
- Number parsing and regular expressions: parameters about which nothing is assumed; finite floats are reals, with infinities and NaN.
- Characters are abstract: strings compare and split by element, and no encoding is modelled.
- Password hashing, sessions, cookies, e-mail lookup and transport: a login step takes whether the password is right as an input.
- Administrative unlocking: it does not reset the count, so no bound survives it.
- Further parameter sources: only the built-in one is registered.
- Library sorting of paths is modelled by insertion into a sorted list.
- Mutexes around the tenant defaults: each operation is one step.
- A pick from a bundled module with an empty ID counts as resolved by its source, while the code's `IsResolved` would deny it.
- Handlers, templates, seed data, slug making, permission tables, JSON schemas and dynamic group membership: input/output, or finite data.
