/** Canonical parameter paths "entity/section/param": the index built by a walk
    over the schema registry in no particular order, and the two lookups that
    print and parse paths. */
module ParameterPaths {
  import opened Wrappers
  import A = Applicability

  datatype ParamDef = ParamDef(key: string, title: string, permission: string)
  datatype Section = Section(key: string, title: string, params: seq<string>)
  datatype Schema = Schema(subtype: string, pathEntity: string, sections: seq<Section>, defaultPermission: string)

  /** The schemas under their subtype slugs and the definitions under their keys. */
  datatype Registry = Registry(schemas: map<string, Schema>, definitions: map<string, ParamDef>)

  datatype Target = Target(schema: Schema, section: Section, def: ParamDef)

  datatype Index = Index(
    paths: map<(string, string), string>,
    targets: map<string, Target>,
    entities: map<string, Schema>)

  const EMPTY := Index(map[], map[], map[])

  datatype Panic = NoPathEntity | DuplicateEntity | DuplicatePath | MountedTwice

  function PathOf(entity: string, section: string, key: string): string {
    entity + "/" + section + "/" + key
  }

  // ---------------------------------------------------------------------
  // Mounts
  // ---------------------------------------------------------------------

  /** One parameter at one place: its path, its (entity, key) slot, and what
      the path resolves to. */
  datatype Mount = Mount(path: string, slot: (string, string), target: Target)

  function MountAt(s: Schema, sec: Section, key: string, def: ParamDef): Mount {
    Mount(PathOf(s.pathEntity, sec.key, key), (s.pathEntity, key), Target(s, sec, def))
  }

  /** The defined parameters among the first `n` of a section. */
  function SectionMounts(reg: Registry, s: Schema, sec: Section, n: nat): seq<Mount>
    requires n <= |sec.params|
  {
    if n == 0 then []
    else
      var key := sec.params[n - 1];
      SectionMounts(reg, s, sec, n - 1) +
      if key in reg.definitions then [MountAt(s, sec, key, reg.definitions[key])] else []
  }

  function MountsUpTo(reg: Registry, s: Schema, i: nat): seq<Mount>
    requires i <= |s.sections|
  {
    if i == 0 then []
    else MountsUpTo(reg, s, i - 1) + SectionMounts(reg, s, s.sections[i - 1], |s.sections[i - 1].params|)
  }

  /** Everything a schema mounts, in section order then parameter order. */
  function Mounts(reg: Registry, s: Schema): seq<Mount> {
    MountsUpTo(reg, s, |s.sections|)
  }

  function AddMount(idx: Index, m: Mount): Result<Index, Panic> {
    if m.path in idx.targets then Err(DuplicatePath)
    else if m.slot in idx.paths then Err(MountedTwice)
    else Ok(idx.(paths := idx.paths[m.slot := m.path], targets := idx.targets[m.path := m.target]))
  }

  function AddMounts(idx: Index, ms: seq<Mount>): Result<Index, Panic> {
    if ms == [] then Ok(idx)
    else
      match AddMounts(idx, ms[..|ms| - 1])
      case Err(e) => Err(e)
      case Ok(before) => AddMount(before, ms[|ms| - 1])
  }

  /** No two mounts share a path or a slot, and none is taken in `idx`. */
  ghost predicate Fits(idx: Index, ms: seq<Mount>) {
    && (forall i :: 0 <= i < |ms| ==> ms[i].path !in idx.targets && ms[i].slot !in idx.paths)
    && (forall i, j :: 0 <= i < j < |ms| ==> ms[i].path != ms[j].path && ms[i].slot != ms[j].slot)
  }

  predicate HasPath(ms: seq<Mount>, p: string) {
    exists i :: 0 <= i < |ms| && ms[i].path == p
  }

  predicate HasSlot(ms: seq<Mount>, k: (string, string)) {
    exists i :: 0 <= i < |ms| && ms[i].slot == k
  }

  /** `r` holds what `idx` holds and the mounts `ms`. */
  ghost predicate Extends(idx: Index, ms: seq<Mount>, r: Index) {
    && r.entities == idx.entities
    && (forall p :: p in r.targets <==> p in idx.targets || HasPath(ms, p))
    && (forall k :: k in r.paths <==> k in idx.paths || HasSlot(ms, k))
    && (forall p :: p in idx.targets && p in r.targets ==> r.targets[p] == idx.targets[p])
    && (forall k :: k in idx.paths && k in r.paths ==> r.paths[k] == idx.paths[k])
    && (forall i :: 0 <= i < |ms| && ms[i].path in r.targets ==> r.targets[ms[i].path] == ms[i].target)
    && (forall i :: 0 <= i < |ms| && ms[i].slot in r.paths ==> r.paths[ms[i].slot] == ms[i].path)
  }

  lemma AddMountExtends(idx: Index, ms: seq<Mount>, before: Index, m: Mount)
    requires Extends(idx, ms, before) && AddMount(before, m).Ok?
    ensures Extends(idx, ms + [m], AddMount(before, m).value)
  {
    var all := ms + [m];
    assert all[|ms|] == m;
    assert forall i :: 0 <= i < |ms| ==> all[i] == ms[i];
    forall p ensures HasPath(all, p) <==> HasPath(ms, p) || m.path == p {
      if i :| 0 <= i < |ms| && ms[i].path == p {
        assert all[i].path == p;
      }
    }
    forall k ensures HasSlot(all, k) <==> HasSlot(ms, k) || m.slot == k {
      if i :| 0 <= i < |ms| && ms[i].slot == k {
        assert all[i].slot == k;
      }
    }
  }

  predicate IsNew(idx: Index, ms: seq<Mount>, m: Mount) {
    m.path !in idx.targets && m.slot !in idx.paths && !HasPath(ms, m.path) && !HasSlot(ms, m.slot)
  }

  lemma FitsStep(idx: Index, ms: seq<Mount>, m: Mount)
    ensures Fits(idx, ms + [m]) <==> Fits(idx, ms) && IsNew(idx, ms, m)
  {
    var all := ms + [m];
    assert all[|ms|] == m;
    assert forall i :: 0 <= i < |ms| ==> all[i] == ms[i];
    if Fits(idx, all) {
      forall i | 0 <= i < |ms| ensures ms[i].path != m.path && ms[i].slot != m.slot {
        assert all[i].path != all[|ms|].path;
      }
    }
  }

  /** Mounting goes through exactly when the mounts fit, and adds them all. */
  lemma {:induction false} AddMountsExactly(idx: Index, ms: seq<Mount>)
    ensures AddMounts(idx, ms).Ok? <==> Fits(idx, ms)
    ensures AddMounts(idx, ms).Ok? ==> Extends(idx, ms, AddMounts(idx, ms).value)
  {
    if ms == [] {
    } else {
      var front, m := ms[..|ms| - 1], ms[|ms| - 1];
      AddMountsExactly(idx, front);
      FitsStep(idx, front, m);
      assert ms == front + [m];
      var r := AddMounts(idx, front);
      if r.Ok? && AddMount(r.value, m).Ok? {
        AddMountExtends(idx, front, r.value, m);
      }
    }
  }

  // ---------------------------------------------------------------------
  // The whole registry
  // ---------------------------------------------------------------------

  function AddSchema(reg: Registry, idx: Index, s: Schema): Result<Index, Panic> {
    if s.pathEntity == "" then Err(NoPathEntity)
    else if s.pathEntity in idx.entities then Err(DuplicateEntity)
    else AddMounts(idx.(entities := idx.entities[s.pathEntity := s]), Mounts(reg, s))
  }

  /** A schema on its own: named, nothing mounted twice. */
  ghost predicate SchemaOk(reg: Registry, s: Schema) {
    s.pathEntity != "" && Fits(EMPTY, Mounts(reg, s))
  }

  /** Two schemas side by side: different entities, no common path. */
  ghost predicate Compatible(reg: Registry, s: Schema, t: Schema) {
    s.pathEntity != t.pathEntity && forall p :: HasPath(Mounts(reg, s), p) ==> !HasPath(Mounts(reg, t), p)
  }

  /** The registry can be indexed; the walk order plays no part in this. */
  ghost predicate Mountable(reg: Registry, slugs: set<string>)
    requires slugs <= reg.schemas.Keys
  {
    && (forall a :: a in slugs ==> SchemaOk(reg, reg.schemas[a]))
    && (forall a, b :: a in slugs && b in slugs && a != b ==> Compatible(reg, reg.schemas[a], reg.schemas[b]))
  }

  predicate OwnsPath(reg: Registry, a: string, p: string)
    requires a in reg.schemas
  {
    HasPath(Mounts(reg, reg.schemas[a]), p)
  }

  predicate OwnsSlot(reg: Registry, a: string, k: (string, string))
    requires a in reg.schemas
  {
    HasSlot(Mounts(reg, reg.schemas[a]), k)
  }

  /** What `idx` records for the mounts `ms` is what they say. */
  ghost predicate Records(idx: Index, ms: seq<Mount>) {
    forall i :: 0 <= i < |ms| ==>
      && ms[i].path in idx.targets && idx.targets[ms[i].path] == ms[i].target
      && ms[i].slot in idx.paths && idx.paths[ms[i].slot] == ms[i].path
  }

  /** Everything in the index comes from the schemas `slugs`. */
  ghost predicate Covered(reg: Registry, slugs: set<string>, idx: Index)
    requires slugs <= reg.schemas.Keys
  {
    && (forall e :: e in idx.entities ==> exists a :: a in slugs && reg.schemas[a].pathEntity == e)
    && (forall p :: p in idx.targets ==> exists a :: a in slugs && OwnsPath(reg, a, p))
    && (forall k :: k in idx.paths ==> exists a :: a in slugs && OwnsSlot(reg, a, k))
  }

  ghost predicate RecordsSchema(reg: Registry, idx: Index, s: Schema) {
    s.pathEntity in idx.entities && idx.entities[s.pathEntity] == s && Records(idx, Mounts(reg, s))
  }

  /** The index holds exactly the schemas `slugs` and what they mount. */
  ghost predicate Describes(reg: Registry, slugs: set<string>, idx: Index)
    requires slugs <= reg.schemas.Keys
  {
    Covered(reg, slugs, idx) && forall a :: a in slugs ==> RecordsSchema(reg, idx, reg.schemas[a])
  }

  lemma RecordsAgree(idx: Index, other: Index, ms: seq<Mount>, p: string, k: (string, string))
    requires Records(idx, ms) && Records(other, ms)
    ensures HasPath(ms, p) ==> p in idx.targets && p in other.targets && idx.targets[p] == other.targets[p]
    ensures HasSlot(ms, k) ==> k in idx.paths && k in other.paths && idx.paths[k] == other.paths[k]
  {
  }

  lemma IndexDetermines(reg: Registry, slugs: set<string>, idx: Index, other: Index)
    requires slugs <= reg.schemas.Keys
    requires Describes(reg, slugs, idx) && Describes(reg, slugs, other)
    ensures forall p :: p in idx.targets ==> p in other.targets && other.targets[p] == idx.targets[p]
    ensures forall k :: k in idx.paths ==> k in other.paths && other.paths[k] == idx.paths[k]
    ensures forall e :: e in idx.entities ==> e in other.entities && other.entities[e] == idx.entities[e]
  {
    forall p | p in idx.targets ensures p in other.targets && other.targets[p] == idx.targets[p] {
      var a :| a in slugs && OwnsPath(reg, a, p);
      RecordsAgree(idx, other, Mounts(reg, reg.schemas[a]), p, ("", ""));
    }
    forall k | k in idx.paths ensures k in other.paths && other.paths[k] == idx.paths[k] {
      var a :| a in slugs && OwnsSlot(reg, a, k);
      RecordsAgree(idx, other, Mounts(reg, reg.schemas[a]), "", k);
    }
  }

  lemma MapsAgree<K, V>(m: map<K, V>, n: map<K, V>)
    requires forall k :: k in m ==> k in n && n[k] == m[k]
    requires forall k :: k in n ==> k in m
    ensures m == n
  {
  }

  /** There is only one index, whatever the walk order. */
  lemma IndexIsUnique(reg: Registry, slugs: set<string>, idx: Index, other: Index)
    requires slugs <= reg.schemas.Keys
    requires Describes(reg, slugs, idx) && Describes(reg, slugs, other)
    ensures idx == other
  {
    IndexDetermines(reg, slugs, idx, other);
    IndexDetermines(reg, slugs, other, idx);
    MapsAgree(idx.targets, other.targets);
    MapsAgree(idx.paths, other.paths);
    MapsAgree(idx.entities, other.entities);
  }

  /** Every mount of a schema is one of its defined parameters, in its place. */
  lemma {:induction false} MountsAreOfSchema(reg: Registry, s: Schema, i: nat, m: Mount)
    requires i <= |s.sections| && m in MountsUpTo(reg, s, i)
    ensures m.slot.0 == s.pathEntity && m.slot.1 in reg.definitions
    ensures m.target.section in s.sections && m.slot.1 in m.target.section.params
    ensures m == MountAt(s, m.target.section, m.slot.1, reg.definitions[m.slot.1])
  {
    if m in MountsUpTo(reg, s, i - 1) {
      MountsAreOfSchema(reg, s, i - 1, m);
    } else {
      MountsAreOfSection(reg, s, s.sections[i - 1], |s.sections[i - 1].params|, m);
    }
  }

  lemma {:induction false} MountsAreOfSection(reg: Registry, s: Schema, sec: Section, n: nat, m: Mount)
    requires n <= |sec.params| && m in SectionMounts(reg, s, sec, n)
    ensures m.slot.1 in sec.params && m.slot.1 in reg.definitions
    ensures m == MountAt(s, sec, m.slot.1, reg.definitions[m.slot.1])
  {
    if m in SectionMounts(reg, s, sec, n - 1) {
      MountsAreOfSection(reg, s, sec, n - 1, m);
    }
  }

  lemma SlotsNameEntity(reg: Registry, s: Schema, k: (string, string))
    requires HasSlot(Mounts(reg, s), k)
    ensures k.0 == s.pathEntity
  {
    var i :| 0 <= i < |Mounts(reg, s)| && Mounts(reg, s)[i].slot == k;
    MountsAreOfSchema(reg, s, |s.sections|, Mounts(reg, s)[i]);
  }

  /** The slots of a new entity are free. */
  lemma NewEntityHasFreeSlots(reg: Registry, slugs: set<string>, idx: Index, s: Schema)
    requires slugs <= reg.schemas.Keys && Describes(reg, slugs, idx) && s.pathEntity !in idx.entities
    ensures forall k :: HasSlot(Mounts(reg, s), k) ==> k !in idx.paths
  {
    forall k | HasSlot(Mounts(reg, s), k) ensures k !in idx.paths {
      SlotsNameEntity(reg, s, k);
      if k in idx.paths {
        var a :| a in slugs && OwnsSlot(reg, a, k);
        SlotsNameEntity(reg, reg.schemas[a], k);
        assert false;
      }
    }
  }

  lemma FitsByPaths(idx: Index, ms: seq<Mount>)
    requires forall k :: HasSlot(ms, k) ==> k !in idx.paths
    ensures Fits(idx, ms) <==> Fits(EMPTY, ms) && forall p :: HasPath(ms, p) ==> p !in idx.targets
  {
  }

  /** One more schema goes in exactly when the enlarged set is mountable. */
  lemma AddSchemaExactly(reg: Registry, slugs: set<string>, idx: Index, a: string)
    requires slugs <= reg.schemas.Keys && a in reg.schemas && a !in slugs
    requires Describes(reg, slugs, idx) && Mountable(reg, slugs)
    ensures AddSchema(reg, idx, reg.schemas[a]).Ok? <==> Mountable(reg, slugs + {a})
    ensures AddSchema(reg, idx, reg.schemas[a]).Ok? ==> Describes(reg, slugs + {a}, AddSchema(reg, idx, reg.schemas[a]).value)
  {
    var s := reg.schemas[a];
    var ms := Mounts(reg, s);
    if s.pathEntity in idx.entities {
      var b :| b in slugs && reg.schemas[b].pathEntity == s.pathEntity;
      assert !Compatible(reg, s, reg.schemas[b]);
    } else if s.pathEntity != "" {
      var named := idx.(entities := idx.entities[s.pathEntity := s]);
      AddMountsExactly(named, ms);
      NewEntityHasFreeSlots(reg, slugs, idx, s);
      FitsByPaths(named, ms);
      MountableStep(reg, slugs, idx, a);
      if AddMounts(named, ms).Ok? {
        DescribesStep(reg, slugs, idx, a, AddMounts(named, ms).value);
      }
    }
  }

  lemma RecordedPathsAreTaken(idx: Index, ms: seq<Mount>, p: string)
    requires Records(idx, ms) && HasPath(ms, p)
    ensures p in idx.targets
  {
  }

  lemma CompatibleWithIndexed(reg: Registry, slugs: set<string>, idx: Index, a: string, b: string)
    requires slugs <= reg.schemas.Keys && a in reg.schemas && b in slugs
    requires Describes(reg, slugs, idx) && reg.schemas[a].pathEntity !in idx.entities
    requires forall p :: OwnsPath(reg, a, p) ==> p !in idx.targets
    ensures Compatible(reg, reg.schemas[a], reg.schemas[b]) && Compatible(reg, reg.schemas[b], reg.schemas[a])
  {
  }

  lemma MountableStep(reg: Registry, slugs: set<string>, idx: Index, a: string)
    requires slugs <= reg.schemas.Keys && a in reg.schemas && a !in slugs
    requires Describes(reg, slugs, idx) && Mountable(reg, slugs)
    requires reg.schemas[a].pathEntity !in idx.entities
    ensures Mountable(reg, slugs + {a}) <==>
              SchemaOk(reg, reg.schemas[a]) && forall p :: OwnsPath(reg, a, p) ==> p !in idx.targets
  {
    if forall p :: OwnsPath(reg, a, p) ==> p !in idx.targets {
      forall b | b in slugs
        ensures Compatible(reg, reg.schemas[a], reg.schemas[b]) && Compatible(reg, reg.schemas[b], reg.schemas[a])
      {
        CompatibleWithIndexed(reg, slugs, idx, a, b);
      }
    } else {
      var p :| OwnsPath(reg, a, p) && p in idx.targets;
      var b :| b in slugs && OwnsPath(reg, b, p);
      assert !Compatible(reg, reg.schemas[a], reg.schemas[b]);
    }
  }

  lemma RecordsAfter(idx: Index, ms: seq<Mount>, r: Index, others: seq<Mount>)
    requires Extends(idx, ms, r)
    ensures Records(r, ms)
    ensures Records(idx, others) ==> Records(r, others)
  {
  }

  lemma CoveredStep(reg: Registry, slugs: set<string>, idx: Index, a: string, r: Index)
    requires slugs <= reg.schemas.Keys && a in reg.schemas && Covered(reg, slugs, idx)
    requires Extends(idx.(entities := idx.entities[reg.schemas[a].pathEntity := reg.schemas[a]]), Mounts(reg, reg.schemas[a]), r)
    ensures Covered(reg, slugs + {a}, r)
  {
  }

  lemma DescribesStep(reg: Registry, slugs: set<string>, idx: Index, a: string, r: Index)
    requires slugs <= reg.schemas.Keys && a in reg.schemas && a !in slugs
    requires Describes(reg, slugs, idx) && reg.schemas[a].pathEntity !in idx.entities
    requires Extends(idx.(entities := idx.entities[reg.schemas[a].pathEntity := reg.schemas[a]]), Mounts(reg, reg.schemas[a]), r)
    ensures Describes(reg, slugs + {a}, r)
  {
    var named := idx.(entities := idx.entities[reg.schemas[a].pathEntity := reg.schemas[a]]);
    CoveredStep(reg, slugs, idx, a, r);
    forall b | b in slugs + {a} ensures RecordsSchema(reg, r, reg.schemas[b]) {
      assert b != a ==> RecordsSchema(reg, idx, reg.schemas[b]);
      RecordsAfter(named, Mounts(reg, reg.schemas[a]), r, Mounts(reg, reg.schemas[b]));
    }
  }

  // ---------------------------------------------------------------------
  // Building the index
  // ---------------------------------------------------------------------

  lemma {:induction false} AddMountsFails(idx: Index, front: seq<Mount>, ms: seq<Mount>)
    requires front <= ms && AddMounts(idx, front).Err?
    ensures AddMounts(idx, ms) == AddMounts(idx, front)
    decreases |ms|
  {
    if front != ms {
      assert front <= ms[..|ms| - 1];
      AddMountsFails(idx, front, ms[..|ms| - 1]);
    } else {
      assert front == ms;
    }
  }

  lemma {:induction false} SectionPrefix(reg: Registry, s: Schema, sec: Section, j: nat, n: nat)
    requires j <= n <= |sec.params|
    ensures SectionMounts(reg, s, sec, j) <= SectionMounts(reg, s, sec, n)
    decreases n
  {
    if j == n {
    } else {
      SectionPrefix(reg, s, sec, j, n - 1);
    }
  }

  lemma {:induction false} SchemaPrefix(reg: Registry, s: Schema, i: nat, n: nat)
    requires i <= n <= |s.sections|
    ensures MountsUpTo(reg, s, i) <= MountsUpTo(reg, s, n)
    decreases n
  {
    if i == n {
    } else {
      SchemaPrefix(reg, s, i, n - 1);
    }
  }

  /** What has been mounted when the loops stand at section `i`, parameter `j`. */
  function MountsBefore(reg: Registry, s: Schema, i: nat, j: nat): (ms: seq<Mount>)
    requires i < |s.sections| && j <= |s.sections[i].params|
  {
    MountsUpTo(reg, s, i) + SectionMounts(reg, s, s.sections[i], j)
  }

  lemma MountsBeforeIsPrefix(reg: Registry, s: Schema, i: nat, j: nat)
    requires i < |s.sections| && j <= |s.sections[i].params|
    ensures MountsBefore(reg, s, i, j) <= Mounts(reg, s)
  {
    SectionPrefix(reg, s, s.sections[i], j, |s.sections[i].params|);
    SchemaPrefix(reg, s, i + 1, |s.sections|);
  }

  /** Every defined parameter that a section lists is mounted, under the path of
      its entity, section and key. */
  lemma MountedAt(reg: Registry, s: Schema, i: nat, j: nat) returns (p: nat)
    requires i < |s.sections| && j < |s.sections[i].params| && s.sections[i].params[j] in reg.definitions
    ensures p == |MountsBefore(reg, s, i, j)| < |MountsBefore(reg, s, i, j + 1)| <= |Mounts(reg, s)|
    ensures var key := s.sections[i].params[j];
            Mounts(reg, s)[p] == Mount(s.pathEntity + "/" + s.sections[i].key + "/" + key, (s.pathEntity, key),
                                       Target(s, s.sections[i], reg.definitions[key]))
  {
    var before, after := MountsBefore(reg, s, i, j), MountsBefore(reg, s, i, j + 1);
    var key := s.sections[i].params[j];
    assert after == before + [MountAt(s, s.sections[i], key, reg.definitions[key])];
    MountsBeforeIsPrefix(reg, s, i, j + 1);
    p := |before|;
  }

  lemma LaterMountsMore(reg: Registry, s: Schema, i: nat, j: nat, i': nat, j': nat)
    requires i < |s.sections| && j < |s.sections[i].params| && i' < |s.sections| && j' < |s.sections[i'].params|
    requires i < i' || (i == i' && j < j')
    ensures |MountsBefore(reg, s, i, j + 1)| <= |MountsBefore(reg, s, i', j')|
  {
    if i == i' {
      SectionPrefix(reg, s, s.sections[i], j + 1, j');
    } else {
      SectionPrefix(reg, s, s.sections[i], j + 1, |s.sections[i].params|);
      SchemaPrefix(reg, s, i + 1, i');
    }
  }

  /** Mounts follow the sections, and in a section its parameters. */
  lemma MountsInOrder(reg: Registry, s: Schema, i: nat, j: nat, i': nat, j': nat) returns (p: nat, q: nat)
    requires i < |s.sections| && j < |s.sections[i].params| && i' < |s.sections| && j' < |s.sections[i'].params|
    requires i < i' || (i == i' && j < j')
    requires s.sections[i].params[j] in reg.definitions && s.sections[i'].params[j'] in reg.definitions
    ensures p < q < |Mounts(reg, s)|
    ensures var k, k' := s.sections[i].params[j], s.sections[i'].params[j'];
            && Mounts(reg, s)[p].target == Target(s, s.sections[i], reg.definitions[k])
            && Mounts(reg, s)[q].target == Target(s, s.sections[i'], reg.definitions[k'])
  {
    p := MountedAt(reg, s, i, j);
    q := MountedAt(reg, s, i', j');
    LaterMountsMore(reg, s, i, j, i', j');
  }

  /** A schema without a name, or with the name of another one, is refused as
      such before anything is mounted. */
  lemma NamelessAndDuplicateSchemas(reg: Registry, idx: Index, s: Schema)
    ensures AddSchema(reg, idx, s) == Err(NoPathEntity) <==> |s.pathEntity| == 0
    ensures AddSchema(reg, idx, s) == Err(DuplicateEntity) <==> |s.pathEntity| > 0 && s.pathEntity in idx.entities
    ensures AddSchema(reg, idx, s).Ok? ==> s.pathEntity in AddSchema(reg, idx, s).value.entities
                                           && AddSchema(reg, idx, s).value.entities[s.pathEntity] == s
  {
    AddMountsExactly(idx.(entities := idx.entities[s.pathEntity := s]), Mounts(reg, s));
    if AddMounts(idx.(entities := idx.entities[s.pathEntity := s]), Mounts(reg, s)).Err? {
      var n := FirstClashIsReported(idx.(entities := idx.entities[s.pathEntity := s]), Mounts(reg, s));
    }
  }

  /** The reported clash is the first one: all mounts before it fit, and it is
      the path, or else the slot, that is taken. */
  lemma {:induction false} FirstClashIsReported(idx: Index, ms: seq<Mount>) returns (n: nat)
    requires AddMounts(idx, ms).Err?
    ensures n < |ms| && Fits(idx, ms[..n])
    ensures var pathTaken := ms[n].path in idx.targets || HasPath(ms[..n], ms[n].path);
            var slotTaken := ms[n].slot in idx.paths || HasSlot(ms[..n], ms[n].slot);
            (pathTaken || slotTaken) && AddMounts(idx, ms) == Err(if pathTaken then DuplicatePath else MountedTwice)
  {
    var front := ms[..|ms| - 1];
    AddMountsExactly(idx, front);
    if AddMounts(idx, front).Err? {
      n := FirstClashIsReported(idx, front);
      assert front[..n] == ms[..n];
    } else {
      n := |ms| - 1;
    }
  }

  /** One turn of the inner loop; a failure is the failure of the whole schema. */
  lemma MountStep(reg: Registry, named: Index, s: Schema, i: nat, j: nat, cur: Index)
    requires i < |s.sections| && j < |s.sections[i].params|
    requires AddMounts(named, MountsBefore(reg, s, i, j)) == Ok(cur)
    ensures var key := s.sections[i].params[j];
            var next := AddMounts(named, MountsBefore(reg, s, i, j + 1));
            && next == (if key in reg.definitions then AddMount(cur, MountAt(s, s.sections[i], key, reg.definitions[key])) else Ok(cur))
            && (next.Err? ==> AddMounts(named, Mounts(reg, s)) == next)
  {
    var before, after := MountsBefore(reg, s, i, j), MountsBefore(reg, s, i, j + 1);
    var key := s.sections[i].params[j];
    if key in reg.definitions {
      assert after == before + [MountAt(s, s.sections[i], key, reg.definitions[key])];
      assert after[..|after| - 1] == before;
    } else {
      assert after == before;
    }
    if AddMounts(named, after).Err? {
      MountsBeforeIsPrefix(reg, s, i, j + 1);
      AddMountsFails(named, after, Mounts(reg, s));
    }
  }

  method MountSchema(reg: Registry, idx: Index, s: Schema) returns (r: Result<Index, Panic>)
    ensures r == AddSchema(reg, idx, s)
  {
    if s.pathEntity == "" {
      return Err(NoPathEntity);
    }
    if s.pathEntity in idx.entities {
      return Err(DuplicateEntity);
    }
    var named := idx.(entities := idx.entities[s.pathEntity := s]);
    var cur := named;
    for i := 0 to |s.sections|
      invariant AddMounts(named, MountsUpTo(reg, s, i)) == Ok(cur)
    {
      var sec := s.sections[i];
      assert MountsBefore(reg, s, i, 0) == MountsUpTo(reg, s, i);
      for j := 0 to |sec.params|
        invariant AddMounts(named, MountsBefore(reg, s, i, j)) == Ok(cur)
      {
        MountStep(reg, named, s, i, j, cur);
        var key := sec.params[j];
        if key in reg.definitions {
          var added := AddMount(cur, MountAt(s, sec, key, reg.definitions[key]));
          if added.Err? {
            return added;
          }
          cur := added.value;
        }
      }
      assert MountsBefore(reg, s, i, |sec.params|) == MountsUpTo(reg, s, i + 1);
    }
    return Ok(cur);
  }

  lemma FewerAreMountable(reg: Registry, slugs: set<string>, more: set<string>)
    requires slugs <= more <= reg.schemas.Keys && Mountable(reg, more)
    ensures Mountable(reg, slugs)
  {
  }

  /** Walks the registry in any order. It succeeds exactly on mountable
      registries, and the index is the one that describes the registry. */
  method BuildPathIndex(reg: Registry) returns (r: Result<Index, Panic>)
    ensures r.Ok? <==> Mountable(reg, reg.schemas.Keys)
    ensures r.Ok? ==> Describes(reg, reg.schemas.Keys, r.value)
  {
    var idx := EMPTY;
    var todo := reg.schemas.Keys;
    ghost var slugs: set<string> := {};
    while todo != {}
      invariant slugs !! todo && slugs + todo == reg.schemas.Keys
      invariant Mountable(reg, slugs) && Describes(reg, slugs, idx)
      decreases todo
    {
      var a := NextKey(todo);
      AddSchemaExactly(reg, slugs, idx, a);
      var added := MountSchema(reg, idx, reg.schemas[a]);
      if added.Err? {
        if Mountable(reg, reg.schemas.Keys) {
          FewerAreMountable(reg, slugs + {a}, reg.schemas.Keys);
        }
        return added;
      }
      idx := added.value;
      todo := todo - {a};
      slugs := slugs + {a};
    }
    assert slugs == reg.schemas.Keys;
    return Ok(idx);
  }

  // ---------------------------------------------------------------------
  // Printing and parsing paths
  // ---------------------------------------------------------------------

  /** The path of a parameter of an entity, "" when it is not mounted. */
  function PathFor(idx: Index, entity: string, key: string): string {
    if (entity, key) in idx.paths then idx.paths[(entity, key)] else ""
  }

  /** Reading one more character: a slash opens a segment, anything else
      extends the last one. */
  function Push(parts: seq<string>, c: char): (r: seq<string>)
    requires parts != []
    ensures r != []
  {
    if c == '/' then parts + [""] else parts[..|parts| - 1] + [parts[|parts| - 1] + [c]]
  }

  function Segments(path: string): (r: seq<string>)
    ensures r != []
  {
    if path == "" then [""] else Push(Segments(path[..|path| - 1]), path[|path| - 1])
  }

  datatype PathError = Malformed | UnknownPath

  function ResolvePath(idx: Index, path: string): Result<Target, PathError> {
    var parts := Segments(path);
    if |parts| != 3 || parts[0] == "" || parts[1] == "" || parts[2] == "" then Err(Malformed)
    else if path !in idx.targets then Err(UnknownPath)
    else Ok(idx.targets[path])
  }

  /** A segment that can stand in a path. */
  predicate Plain(s: string) {
    s != "" && '/' !in s
  }

  lemma {:induction false} SegmentsOfPlain(s: string)
    ensures |Segments(s)| == 1 <==> '/' !in s
    ensures '/' !in s ==> Segments(s) == [s]
  {
    if s == "" {
    } else {
      SegmentsOfPlain(s[..|s| - 1]);
      assert s == s[..|s| - 1] + [s[|s| - 1]];
    }
  }

  lemma PushConcat(parts: seq<string>, more: seq<string>, c: char)
    requires more != []
    ensures Push(parts + more, c) == parts + Push(more, c)
  {
  }

  lemma SegmentsAppend(a: string, c: char)
    ensures Segments(a + [c]) == Push(Segments(a), c)
  {
  }

  lemma {:induction false} SegmentsConcat(a: string, b: string)
    ensures Segments(a + "/" + b) == Segments(a) + Segments(b)
  {
    if b == "" {
      SegmentsAppend(a, '/');
      assert a + "/" + b == a + ['/'];
    } else {
      var front, c := b[..|b| - 1], b[|b| - 1];
      SegmentsConcat(a, front);
      SegmentsAppend(a + "/" + front, c);
      assert a + "/" + b == (a + "/" + front) + [c];
      PushConcat(Segments(a), Segments(front), c);
    }
  }

  /** A parameter that is not mounted has the empty path, and no other has. */
  lemma UnmountedExactly(reg: Registry, idx: Index, entity: string, key: string)
    requires Describes(reg, reg.schemas.Keys, idx)
    ensures |PathFor(idx, entity, key)| == 0 <==> (entity, key) !in idx.paths
  {
    if (entity, key) in idx.paths {
      var a, m := IndexedSlot(reg, idx, (entity, key));
    }
  }

  /** A path of the wrong shape is malformed; one of the right shape is unknown
      exactly when the index does not have it. */
  lemma LookupFailsExactly(idx: Index, path: string)
    ensures ResolvePath(idx, path) == Err(Malformed)
            <==> |Segments(path)| != 3 || exists i :: 0 <= i < |Segments(path)| && Segments(path)[i] == ""
    ensures ResolvePath(idx, path).Err? && ResolvePath(idx, path) != Err(Malformed) <==>
              |Segments(path)| == 3 && (forall i :: 0 <= i < 3 ==> Segments(path)[i] != "") && path !in idx.targets
    ensures ResolvePath(idx, path).Ok? ==> path in idx.targets && ResolvePath(idx, path).value == idx.targets[path]
  {
  }

  /** A printed path parses into three non-empty segments exactly when each of
      its parts is plain, and then into those parts. */
  lemma PathsParseExactly(e: string, s: string, k: string)
    ensures var parts := Segments(PathOf(e, s, k));
            (|parts| == 3 && parts[0] != "" && parts[1] != "" && parts[2] != "") <==> (Plain(e) && Plain(s) && Plain(k))
    ensures Plain(e) && Plain(s) && Plain(k) ==> Segments(PathOf(e, s, k)) == [e, s, k]
  {
    assert PathOf(e, s, k) == (e + "/" + s) + "/" + k;
    SegmentsConcat(e + "/" + s, k);
    SegmentsConcat(e, s);
    SegmentsOfPlain(e);
    SegmentsOfPlain(s);
    SegmentsOfPlain(k);
  }

  /** Definitions are registered under their own keys. */
  ghost predicate KeysMatch(reg: Registry) {
    forall k :: k in reg.definitions ==> reg.definitions[k].key == k
  }

  /** A path of the index, taken apart: the mount it comes from. */
  lemma IndexedPath(reg: Registry, idx: Index, p: string) returns (a: string, m: Mount)
    requires Describes(reg, reg.schemas.Keys, idx) && p in idx.targets
    ensures a in reg.schemas && m.target.schema == reg.schemas[a] && m.path == p && idx.targets[p] == m.target
    ensures m.slot in idx.paths && idx.paths[m.slot] == p
    ensures m.slot.1 in reg.definitions
    ensures m == MountAt(reg.schemas[a], m.target.section, m.slot.1, reg.definitions[m.slot.1])
  {
    a :| a in reg.schemas.Keys && OwnsPath(reg, a, p);
    var ms := Mounts(reg, reg.schemas[a]);
    assert RecordsSchema(reg, idx, reg.schemas[a]);
    var i :| 0 <= i < |ms| && ms[i].path == p;
    m := ms[i];
    MountsAreOfSchema(reg, reg.schemas[a], |reg.schemas[a].sections|, m);
  }

  /** A slot of the index, taken apart. */
  lemma IndexedSlot(reg: Registry, idx: Index, k: (string, string)) returns (a: string, m: Mount)
    requires Describes(reg, reg.schemas.Keys, idx) && k in idx.paths
    ensures a in reg.schemas && m.slot == k && m.path == idx.paths[k]
    ensures m.path in idx.targets && idx.targets[m.path] == m.target
    ensures k.1 in reg.definitions && m == MountAt(reg.schemas[a], m.target.section, k.1, reg.definitions[k.1])
    ensures m.target.section in reg.schemas[a].sections
  {
    a :| a in reg.schemas.Keys && OwnsSlot(reg, a, k);
    var ms := Mounts(reg, reg.schemas[a]);
    assert RecordsSchema(reg, idx, reg.schemas[a]);
    var i :| 0 <= i < |ms| && ms[i].slot == k;
    m := ms[i];
    MountsAreOfSchema(reg, reg.schemas[a], |reg.schemas[a].sections|, m);
  }

  /** Whatever resolves was printed: a resolved target is the definition that
      its entity mounts at that path. */
  lemma ResolvedWasPrinted(reg: Registry, idx: Index, p: string)
    requires Describes(reg, reg.schemas.Keys, idx) && KeysMatch(reg) && ResolvePath(idx, p).Ok?
    ensures var t := ResolvePath(idx, p).value;
            PathFor(idx, t.schema.pathEntity, t.def.key) == p && p == PathOf(t.schema.pathEntity, t.section.key, t.def.key)
  {
    var a, m := IndexedPath(reg, idx, p);
  }

  /** A printed path resolves exactly when its three parts are non-empty and
      free of slashes, and then to what it was printed for. */
  lemma PrintedResolvesExactly(reg: Registry, idx: Index, entity: string, key: string) returns (t: Target)
    requires Describes(reg, reg.schemas.Keys, idx) && KeysMatch(reg) && (entity, key) in idx.paths
    ensures t.schema.pathEntity == entity && t.def.key == key
    ensures PathFor(idx, entity, key) == PathOf(entity, t.section.key, key)
    ensures ResolvePath(idx, PathFor(idx, entity, key)) ==
              if Plain(entity) && Plain(t.section.key) && Plain(key) then Ok(t) else Err(Malformed)
  {
    var a, m := IndexedSlot(reg, idx, (entity, key));
    t := m.target;
    PathsParseExactly(entity, t.section.key, key);
  }

  lemma {:induction false} KeyAfterSlash(front: string, key: string)
    requires '/' !in key
    ensures A.ParamKey(front + "/" + key) == key
    decreases |key|
  {
    var p := front + "/" + key;
    if key == "" {
    } else {
      KeyAfterSlash(front, key[..|key| - 1]);
      assert p[..|p| - 1] == front + "/" + key[..|key| - 1];
    }
  }

  /** The engine that evaluates conditions recovers the parameter key from a
      canonical path. */
  lemma PathsEndInTheirKey(entity: string, section: string, key: string)
    requires Plain(key)
    ensures A.ParamKey(PathOf(entity, section, key)) == key
  {
    KeyAfterSlash(entity + "/" + section, key);
  }
}
