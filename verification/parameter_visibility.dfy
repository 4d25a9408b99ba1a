/** Which parameters a caller may see: one route filters the definitions a
    schema mounts, the other filters the sorted list of all paths. */
module ParameterVisibility {
  import opened Wrappers
  import opened Orderings
  import opened ParameterPaths

  /** Whether the caller holds a permission. */
  type Grants = string -> bool

  predicate MaySee(has: Grants, permission: string) {
    permission == "" || has(permission)
  }

  /** The definition's own permission, else its schema's default. */
  function DeclaredPermission(t: Target): string {
    if t.def.permission != "" then t.def.permission else t.schema.defaultPermission
  }

  function EffectivePermission(idx: Index, path: string): string {
    match ResolvePath(idx, path) case Ok(t) => DeclaredPermission(t) case Err(_) => ""
  }

  // ---------------------------------------------------------------------
  // By definition
  // ---------------------------------------------------------------------

  datatype MountedDef = MountedDef(path: string, sectionKey: string, sectionTitle: string, def: ParamDef)

  function Stamp(idx: Index, m: Mount): MountedDef {
    MountedDef(m.path, m.target.section.key, m.target.section.title,
               m.target.def.(permission := EffectivePermission(idx, m.path)))
  }

  function Stamped(idx: Index, ms: seq<Mount>): (ds: seq<MountedDef>)
    ensures |ds| == |ms| && forall i :: 0 <= i < |ms| ==> ds[i] == Stamp(idx, ms[i])
  {
    seq(|ms|, i requires 0 <= i < |ms| => Stamp(idx, ms[i]))
  }

  function KeepVisible(has: Grants, ds: seq<MountedDef>): seq<MountedDef> {
    if ds == [] then []
    else
      var d := ds[|ds| - 1];
      KeepVisible(has, ds[..|ds| - 1]) + if MaySee(has, d.def.permission) then [d] else []
  }

  function KeepGranted(has: Grants, defs: seq<ParamDef>): seq<ParamDef> {
    if defs == [] then []
    else
      var d := defs[|defs| - 1];
      KeepGranted(has, defs[..|defs| - 1]) + if MaySee(has, d.permission) then [d] else []
  }

  function Defs(ds: seq<MountedDef>): (r: seq<ParamDef>)
    ensures |r| == |ds| && forall i :: 0 <= i < |r| ==> r[i] == ds[i].def
  {
    seq(|ds|, i requires 0 <= i < |ds| => ds[i].def)
  }

  method FilterByGrants(has: Grants, defs: seq<ParamDef>) returns (out: seq<ParamDef>)
    ensures out == KeepGranted(has, defs)
  {
    out := [];
    for i := 0 to |defs|
      invariant out == KeepGranted(has, defs[..i])
    {
      assert defs[..i + 1][..i] == defs[..i];
      if MaySee(has, defs[i].permission) {
        out := out + [defs[i]];
      }
    }
    assert defs[..|defs|] == defs;
  }

  method EffectiveDefs(reg: Registry, idx: Index, s: Schema) returns (out: seq<MountedDef>)
    ensures out == Stamped(idx, Mounts(reg, s))
  {
    out := [];
    for i := 0 to |s.sections|
      invariant out == Stamped(idx, MountsUpTo(reg, s, i))
    {
      var sec := s.sections[i];
      assert MountsBefore(reg, s, i, 0) == MountsUpTo(reg, s, i);
      for j := 0 to |sec.params|
        invariant out == Stamped(idx, MountsBefore(reg, s, i, j))
      {
        var key := sec.params[j];
        if key in reg.definitions {
          var m := MountAt(s, sec, key, reg.definitions[key]);
          assert MountsBefore(reg, s, i, j + 1) == MountsBefore(reg, s, i, j) + [m];
          out := out + [Stamp(idx, m)];
        } else {
          assert MountsBefore(reg, s, i, j + 1) == MountsBefore(reg, s, i, j);
        }
      }
      assert MountsBefore(reg, s, i, |sec.params|) == MountsUpTo(reg, s, i + 1);
    }
  }

  method VisibleDefs(reg: Registry, idx: Index, s: Schema, has: Grants) returns (out: seq<MountedDef>)
    ensures out == KeepVisible(has, Stamped(idx, Mounts(reg, s)))
  {
    var all := EffectiveDefs(reg, idx, s);
    out := [];
    for i := 0 to |all|
      invariant out == KeepVisible(has, all[..i])
    {
      assert all[..i + 1][..i] == all[..i];
      if MaySee(has, all[i].def.permission) {
        out := out + [all[i]];
      }
    }
    assert all[..|all|] == all;
  }

  // ---------------------------------------------------------------------
  // By path
  // ---------------------------------------------------------------------

  function Self(p: string): string { p }

  ghost predicate ListsSorted(out: seq<string>, members: set<string>) {
    StrictlySorted(out, Self) && forall p :: p in out <==> p in members
  }

  function InsertSorted(s: seq<string>, x: string): seq<string> {
    if s == [] || Less(x, s[0]) then [x] + s else [s[0]] + InsertSorted(s[1..], x)
  }

  lemma {:induction false} InsertKeepsSorted(s: seq<string>, x: string)
    requires StrictlySorted(s, Self) && x !in s
    ensures StrictlySorted(InsertSorted(s, x), Self)
    ensures forall p :: p in InsertSorted(s, x) <==> p in s || p == x
  {
    if s == [] {
    } else {
      LessIsTotal(x, s[0]);
      if Less(x, s[0]) {
        forall i | 0 <= i < |s| ensures Less(x, s[i]) {
          if i > 0 {
            LessIsTransitive(x, s[0], s[i]);
          }
        }
      } else {
        InsertKeepsSorted(s[1..], x);
        var rest := InsertSorted(s[1..], x);
        forall i | 0 <= i < |rest| ensures Less(s[0], rest[i]) {
          assert rest[i] in rest;
        }
      }
    }
  }

  /** All indexed paths, sorted. */
  method AllPaths(idx: Index) returns (out: seq<string>)
    ensures ListsSorted(out, idx.targets.Keys)
  {
    out := [];
    var todo := idx.targets.Keys;
    while todo != {}
      invariant todo <= idx.targets.Keys && ListsSorted(out, idx.targets.Keys - todo)
      decreases todo
    {
      var p := NextKey(todo);
      InsertKeepsSorted(out, p);
      out := InsertSorted(out, p);
      todo := todo - {p};
    }
  }

  function VisibleSet(idx: Index, has: Grants): set<string> {
    set p | p in idx.targets && MaySee(has, EffectivePermission(idx, p))
  }

  method VisiblePaths(idx: Index, has: Grants) returns (out: seq<string>)
    ensures ListsSorted(out, VisibleSet(idx, has))
  {
    var all := AllPaths(idx);
    out := [];
    for i := 0 to |all|
      invariant StrictlySorted(out, Self)
      invariant forall p :: p in out <==> p in all[..i] && MaySee(has, EffectivePermission(idx, p))
    {
      if MaySee(has, EffectivePermission(idx, all[i])) {
        forall p | p in out ensures Less(p, all[i]) {
          var k :| 0 <= k < i && all[..i][k] == p;
          assert Less(Self(all[k]), Self(all[i]));
        }
        out := out + [all[i]];
      }
    }
    assert all[..|all|] == all;
  }

  // ---------------------------------------------------------------------
  // The two routes
  // ---------------------------------------------------------------------

  lemma {:induction false} VisibleDefsOf(has: Grants, ds: seq<MountedDef>, d: MountedDef)
    ensures d in KeepVisible(has, ds) <==> d in ds && MaySee(has, d.def.permission)
  {
    if ds == [] {
    } else {
      VisibleDefsOf(has, ds[..|ds| - 1], d);
      assert ds == ds[..|ds| - 1] + [ds[|ds| - 1]];
    }
  }

  /** The schema `s` offers a visible definition at path `p`. */
  predicate Offers(reg: Registry, idx: Index, has: Grants, s: Schema, p: string) {
    exists d :: d in KeepVisible(has, Stamped(idx, Mounts(reg, s))) && d.path == p
  }

  lemma OffersOwnVisiblePaths(reg: Registry, idx: Index, has: Grants, s: Schema, p: string)
    ensures Offers(reg, idx, has, s, p) <==> HasPath(Mounts(reg, s), p) && MaySee(has, EffectivePermission(idx, p))
  {
    var ms := Mounts(reg, s);
    var ds := Stamped(idx, ms);
    if d :| d in KeepVisible(has, ds) && d.path == p {
      VisibleDefsOf(has, ds, d);
      var i :| 0 <= i < |ds| && ds[i] == d;
      assert ms[i].path == p;
    }
    if HasPath(ms, p) && MaySee(has, EffectivePermission(idx, p)) {
      var i :| 0 <= i < |ms| && ms[i].path == p;
      VisibleDefsOf(has, ds, ds[i]);
      assert ds[i] in KeepVisible(has, ds) && ds[i].path == p;
    }
  }

  /** A path is listed by one route exactly when some schema offers a definition
      at it by the other. */
  lemma RoutesAgree(reg: Registry, idx: Index, has: Grants, p: string)
    requires Describes(reg, reg.schemas.Keys, idx)
    ensures p in VisibleSet(idx, has) <==> exists a :: a in reg.schemas && Offers(reg, idx, has, reg.schemas[a], p)
  {
    forall a | a in reg.schemas {
      OffersOwnVisiblePaths(reg, idx, has, reg.schemas[a], p);
    }
    if p in idx.targets {
      var a :| a in reg.schemas.Keys && OwnsPath(reg, a, p);
      assert a in reg.schemas;
    }
    if a :| a in reg.schemas && Offers(reg, idx, has, reg.schemas[a], p) {
      assert RecordsSchema(reg, idx, reg.schemas[a]);
      RecordedPathsAreTaken(idx, Mounts(reg, reg.schemas[a]), p);
    }
  }

  /** Filtering the stamped definitions by grants gives the visible definitions,
      in the same order. */
  lemma {:induction false} GrantsFilterAgrees(has: Grants, ds: seq<MountedDef>)
    ensures KeepGranted(has, Defs(ds)) == Defs(KeepVisible(has, ds))
  {
    if ds == [] {
    } else {
      GrantsFilterAgrees(has, ds[..|ds| - 1]);
      assert Defs(ds)[..|ds| - 1] == Defs(ds[..|ds| - 1]);
    }
  }

  /** More grants never hide a path. */
  lemma MoreGrantsShowMore(idx: Index, has: Grants, more: Grants)
    requires forall k :: has(k) ==> more(k)
    ensures VisibleSet(idx, has) <= VisibleSet(idx, more)
  {
  }

  /** What a schema lists about a parameter: its path, the key and title of its
      section, and its definition with the permission of the path. */
  lemma StampedAt(reg: Registry, idx: Index, s: Schema, i: nat, j: nat) returns (p: nat)
    requires i < |s.sections| && j < |s.sections[i].params| && s.sections[i].params[j] in reg.definitions
    ensures p == |MountsBefore(reg, s, i, j)| < |Stamped(idx, Mounts(reg, s))|
    ensures var d, key := Stamped(idx, Mounts(reg, s))[p], s.sections[i].params[j];
            && d.path == s.pathEntity + "/" + s.sections[i].key + "/" + key
            && d.sectionKey == s.sections[i].key && d.sectionTitle == s.sections[i].title
            && d.def.permission == EffectivePermission(idx, d.path)
            && reg.definitions[key] == d.def.(permission := reg.definitions[key].permission)
  {
    p := MountedAt(reg, s, i, j);
  }

  /** A parameter is listed as visible exactly when its permission is granted or
      there is none: its definition's own, or else its schema's default. A path
      that does not parse back is visible to everybody. */
  lemma VisibleExactly(reg: Registry, idx: Index, has: Grants, entity: string, key: string) returns (t: Target)
    requires Describes(reg, reg.schemas.Keys, idx) && KeysMatch(reg) && (entity, key) in idx.paths
    ensures t.schema.pathEntity == entity && t.def.key == key
    ensures var permission := if |t.def.permission| > 0 then t.def.permission else t.schema.defaultPermission;
            PathFor(idx, entity, key) in VisibleSet(idx, has) <==>
              |permission| == 0 || has(permission) || !(Plain(entity) && Plain(t.section.key) && Plain(key))
  {
    t := PrintedResolvesExactly(reg, idx, entity, key);
    var a, m := IndexedSlot(reg, idx, (entity, key));
  }

  /** The filters keep what is open or granted, in the order of the list. */
  lemma GrantsFilterExactly(has: Grants, defs: seq<ParamDef>, d: ParamDef, ds: seq<MountedDef>, md: MountedDef)
    ensures KeepGranted(has, []) == [] && KeepVisible(has, []) == []
    ensures KeepGranted(has, defs + [d])
         == KeepGranted(has, defs) + if |d.permission| == 0 || has(d.permission) then [d] else []
    ensures KeepVisible(has, ds + [md])
         == KeepVisible(has, ds) + if |md.def.permission| == 0 || has(md.def.permission) then [md] else []
  {
    assert (defs + [d])[..|defs|] == defs && (ds + [md])[..|ds|] == ds;
  }

  /** The stamp is the declared permission exactly when the path can be parsed
      back or nothing was declared; an unparsable path is open to everybody. */
  lemma StampIsDeclaredExactly(reg: Registry, idx: Index, entity: string, key: string) returns (t: Target)
    requires Describes(reg, reg.schemas.Keys, idx) && KeysMatch(reg) && (entity, key) in idx.paths
    ensures t.schema.pathEntity == entity && t.def.key == key
    ensures EffectivePermission(idx, PathFor(idx, entity, key)) == DeclaredPermission(t)
            <==> (Plain(entity) && Plain(t.section.key) && Plain(key)) || DeclaredPermission(t) == ""
  {
    t := PrintedResolvesExactly(reg, idx, entity, key);
  }

  lemma OneMountFits(reg: Registry, schema: Schema, m: Mount)
    requires schema.pathEntity != "" && Mounts(reg, schema) == [m]
    ensures AddSchema(reg, EMPTY, schema).Ok?
  {
    var named := EMPTY.(entities := map[schema.pathEntity := schema]);
    assert Fits(named, [m]);
    AddMountsExactly(named, [m]);
  }

  lemma NothingIsDescribed(reg: Registry)
    ensures Mountable(reg, {}) && Describes(reg, {}, EMPTY)
  {
  }

  lemma MountedSlot(reg: Registry, idx: Index, schema: Schema, m: Mount)
    requires RecordsSchema(reg, idx, schema) && Mounts(reg, schema) == [m]
    ensures m.slot in idx.paths
  {
    assert Mounts(reg, schema)[0] == m;
  }

  /** The index of a registry whose only schema mounts a single parameter. */
  lemma IndexOfOne(reg: Registry, a: string, m: Mount) returns (idx: Index)
    requires reg.schemas.Keys == {a} && reg.schemas[a].pathEntity != "" && Mounts(reg, reg.schemas[a]) == [m]
    ensures Mountable(reg, reg.schemas.Keys) && Describes(reg, reg.schemas.Keys, idx)
    ensures m.slot in idx.paths
  {
    OneMountFits(reg, reg.schemas[a], m);
    NothingIsDescribed(reg);
    assert {} + {a} == reg.schemas.Keys;
    AddSchemaExactly(reg, {}, EMPTY, a);
    idx := AddSchema(reg, EMPTY, reg.schemas[a]).value;
    MountedSlot(reg, idx, reg.schemas[a], m);
  }

  /** A registry with one schema, one section and one parameter. */
  function Single(entity: string, section: string, key: string, permission: string): Registry {
    Registry(map["" := Schema("", entity, [Section(section, "", [key])], permission)],
             map[key := ParamDef(key, "", "")])
  }

  lemma SingleMount(entity: string, section: string, key: string, permission: string)
    ensures var reg := Single(entity, section, key, permission);
            var s := reg.schemas[""];
            Mounts(reg, s) == [MountAt(s, s.sections[0], key, reg.definitions[key])]
  {
    var reg := Single(entity, section, key, permission);
    var s := reg.schemas[""];
    assert SectionMounts(reg, s, s.sections[0], 0) == [] && MountsUpTo(reg, s, 0) == [];
    assert SectionMounts(reg, s, s.sections[0], 1) == [MountAt(s, s.sections[0], key, reg.definitions[key])];
  }

  lemma SlashedPath(reg: Registry, idx: Index, entity: string, section: string, key: string)
    requires Describes(reg, reg.schemas.Keys, idx) && KeysMatch(reg) && (entity, key) in idx.paths && '/' in section
    requires forall a, sec :: a in reg.schemas && sec in reg.schemas[a].sections ==> sec.key == section
    ensures EffectivePermission(idx, PathFor(idx, entity, key)) == ""
  {
    var a, m := IndexedSlot(reg, idx, (entity, key));
    PathsParseExactly(entity, section, key);
    assert m.target.section in reg.schemas[a].sections;
  }

  lemma SingleIsInOrder(entity: string, section: string, key: string, permission: string)
    ensures var reg := Single(entity, section, key, permission);
            && KeysMatch(reg) && reg.schemas.Keys == {""}
            && forall a, sec :: a in reg.schemas && sec in reg.schemas[a].sections ==> sec.key == section
  {
  }

  lemma SingleIndex(entity: string, section: string, key: string, permission: string) returns (idx: Index)
    requires entity != ""
    ensures var reg := Single(entity, section, key, permission);
            && Mountable(reg, reg.schemas.Keys) && Describes(reg, reg.schemas.Keys, idx)
            && (entity, key) in idx.paths
  {
    SingleMount(entity, section, key, permission);
    SingleIsInOrder(entity, section, key, permission);
    var reg := Single(entity, section, key, permission);
    var s := reg.schemas[""];
    idx := IndexOfOne(reg, "", MountAt(s, s.sections[0], key, reg.definitions[key]));
  }

  /** A section key with a slash opens a parameter to everybody, although its
      schema declares a permission and the registry is in order. */
  lemma SlashedSectionIsOpen(entity: string, section: string, key: string, permission: string) returns (idx: Index)
    requires entity != "" && '/' in section && permission != ""
    ensures var reg := Single(entity, section, key, permission);
            && Mountable(reg, reg.schemas.Keys) && Describes(reg, reg.schemas.Keys, idx)
            && (entity, key) in idx.paths
            && reg.schemas[""].defaultPermission == permission
            && EffectivePermission(idx, PathFor(idx, entity, key)) == ""
  {
    idx := SingleIndex(entity, section, key, permission);
    SingleIsInOrder(entity, section, key, permission);
    SlashedPath(Single(entity, section, key, permission), idx, entity, section, key);
  }
}
