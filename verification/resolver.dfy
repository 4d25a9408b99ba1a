/** The dependency resolver: a three-colour depth-first search that emits a
    topological install order, followed by a conflict pass. */
module DependencyResolver {
  import opened Wrappers
  import opened ModuleTypes

  // ---------------------------------------------------------------------
  // The dependency graph
  // ---------------------------------------------------------------------

  type Index = map<string, Module>

  /** The lookup table of a catalog. A later module overwrites an earlier one
      with the same ID. */
  function IndexOf(catalog: seq<Module>): Index {
    if catalog == [] then map[]
    else
      var last := |catalog| - 1;
      IndexOf(catalog[..last])[catalog[last].id := catalog[last]]
  }

  /** IDs that the search can enter: in the catalog, with at least one version. */
  predicate Resolved(byID: Index, id: string) {
    id in byID && byID[id].LatestVersion().Some?
  }

  function Head(byID: Index, id: string): ModuleVersion
    requires Resolved(byID, id)
  {
    byID[id].LatestVersion().value
  }

  /** The head version of `a` depends on `b`. */
  predicate Edge(byID: Index, a: string, b: string) {
    Resolved(byID, a) &&
    exists k :: 0 <= k < |Head(byID, a).dependencies| && Head(byID, a).dependencies[k].moduleID == b
  }

  ghost predicate Walk(byID: Index, p: seq<string>) {
    p != [] && forall i, j :: 0 <= i < j < |p| && j == i + 1 ==> Edge(byID, p[i], p[j])
  }

  ghost predicate WalkBetween(byID: Index, p: seq<string>, a: string, b: string) {
    Walk(byID, p) && p[0] == a && p[|p| - 1] == b
  }

  ghost predicate Reaches(byID: Index, a: string, b: string) {
    exists p :: WalkBetween(byID, p, a, b)
  }

  ghost predicate InClosure(byID: Index, roots: seq<string>, x: string) {
    exists r :: r in roots && Reaches(byID, r, x)
  }

  /** Every module the roots pull in exists and has a version. */
  ghost predicate Complete(byID: Index, roots: seq<string>) {
    forall x :: InClosure(byID, roots, x) ==> Resolved(byID, x)
  }

  ghost predicate Cyclic(byID: Index, p: seq<string>) {
    Walk(byID, p) && |p| > 1 && p[0] == p[|p| - 1]
  }

  ghost predicate Acyclic(byID: Index, roots: seq<string>) {
    forall p :: Cyclic(byID, p) ==> !InClosure(byID, roots, p[0])
  }

  ghost predicate ConflictFree(byID: Index, roots: seq<string>) {
    forall x, y :: InClosure(byID, roots, x) && InClosure(byID, roots, y) && Resolved(byID, x)
                   ==> y !in Head(byID, x).conflicts
  }

  /** The exact condition under which a selection has an install plan. */
  ghost predicate Resolvable(byID: Index, selected: seq<string>) {
    Complete(byID, selected) && Acyclic(byID, selected) && ConflictFree(byID, selected)
  }

  // ---------------------------------------------------------------------
  // Plans and errors
  // ---------------------------------------------------------------------

  datatype Plan = Plan(order: seq<string>, picks: map<string, string>, addedTransitively: seq<string>)

  /** `NotInCatalog` and `NoVersion` share the code string "missing-dep" and
      differ in their message. */
  datatype ErrorCode = NotInCatalog | NoVersion | Cycle | Conflict

  datatype ResolveError = ResolveError(code: ErrorCode, path: seq<string>)

  ghost predicate NoDuplicates(s: seq<string>) {
    forall i, j :: 0 <= i < j < |s| ==> s[i] != s[j]
  }

  /** Duplicate free, and every dependency of an entry stands before the entry. */
  ghost predicate InstallOrder(byID: Index, order: seq<string>) {
    && NoDuplicates(order)
    && (forall i :: 0 <= i < |order| ==> Resolved(byID, order[i]))
    && (forall i, d :: 0 <= i < |order| && Edge(byID, order[i], d) ==> d in order[..i])
  }

  function HeadVersions(byID: Index, order: seq<string>): map<string, string>
    requires forall x :: x in order ==> Resolved(byID, x)
  {
    map x | x in order :: Head(byID, x).version
  }

  function Without(order: seq<string>, explicit: set<string>): seq<string> {
    if order == [] then []
    else
      var last := |order| - 1;
      Without(order[..last], explicit) + if order[last] in explicit then [] else [order[last]]
  }

  function ToSet(s: seq<string>): set<string> {
    set x | x in s
  }

  /** The search error reported for `path` really is there: `path` follows
      dependency edges, repeats nothing before its last element, and the last
      element closes a ring or cannot be resolved. */
  ghost predicate SearchWitness(byID: Index, e: ResolveError) {
    && Walk(byID, e.path)
    && NoDuplicates(e.path[..|e.path| - 1])
    && var last := e.path[|e.path| - 1];
    match e.code
    case Cycle => last in e.path[..|e.path| - 1]
    case NotInCatalog => last !in byID
    case NoVersion => last in byID && byID[last].versions == []
    case Conflict => false
  }

  ghost predicate ConflictWitness(byID: Index, selected: seq<string>, e: ResolveError) {
    && e.code == Conflict
    && |e.path| == 2
    && Complete(byID, selected)
    && Acyclic(byID, selected)
    && InClosure(byID, selected, e.path[0])
    && InClosure(byID, selected, e.path[1])
    && Resolved(byID, e.path[0])
    && e.path[1] in Head(byID, e.path[0]).conflicts
  }

  ghost predicate Genuine(byID: Index, selected: seq<string>, e: ResolveError) {
    if e.code == Conflict then ConflictWitness(byID, selected, e)
    else SearchWitness(byID, e) && e.path[0] in selected
  }

  // ---------------------------------------------------------------------
  // The search as a function
  // ---------------------------------------------------------------------

  /** Unvisited (white) IDs are absent from the colour map. */
  datatype Colour = Grey | Black

  /** What the search has accumulated: everything the `visit` closure updates. */
  datatype Progress = Progress(
    colour: map<string, Colour>,
    order: seq<string>,
    picks: map<string, string>,
    added: seq<string>)

  datatype Outcome = Done(progress: Progress) | Failed(error: ResolveError)

  const START := Progress(map[], [], map[], [])

  function Enter(s: Progress, id: string): (t: Progress)
    ensures t.colour.Keys == s.colour.Keys + {id}
  {
    s.(colour := s.colour[id := Grey])
  }

  function Leave(s: Progress, id: string, version: string, explicit: set<string>): Progress {
    Progress(
      s.colour[id := Black],
      s.order + [id],
      s.picks[id := version],
      s.added + if id in explicit then [] else [id])
  }

  function DependencyIDs(v: ModuleVersion): (ids: seq<string>)
    ensures |ids| == |v.dependencies|
    ensures forall k :: 0 <= k < |ids| ==> ids[k] == v.dependencies[k].moduleID
  {
    seq(|v.dependencies|, k requires 0 <= k < |v.dependencies| => v.dependencies[k].moduleID)
  }

  function SearchFrom(byID: Index, explicit: set<string>, s: Progress, id: string, stack: seq<string>): (r: Outcome)
    ensures r.Done? ==> s.colour.Keys <= r.progress.colour.Keys
    decreases byID.Keys - s.colour.Keys, 0
  {
    if id in s.colour then
      if s.colour[id] == Grey then Failed(ResolveError(Cycle, stack + [id])) else Done(s)
    else if id !in byID then
      Failed(ResolveError(NotInCatalog, stack + [id]))
    else if byID[id].LatestVersion().None? then
      Failed(ResolveError(NoVersion, stack + [id]))
    else
      var v := Head(byID, id);
      assert id in byID.Keys - s.colour.Keys;
      match SearchAll(byID, explicit, Enter(s, id), DependencyIDs(v), stack + [id])
      case Failed(e) => Failed(e)
      case Done(t) => Done(Leave(t, id, v.version, explicit))
  }

  function SearchAll(byID: Index, explicit: set<string>, s: Progress, ids: seq<string>, stack: seq<string>): (r: Outcome)
    ensures r.Done? ==> s.colour.Keys <= r.progress.colour.Keys
    decreases byID.Keys - s.colour.Keys, |ids|
  {
    if ids == [] then Done(s)
    else
      var last := |ids| - 1;
      match SearchAll(byID, explicit, s, ids[..last], stack)
      case Failed(e) => Failed(e)
      case Done(t) => SearchFrom(byID, explicit, t, ids[last], stack)
  }

  // ---------------------------------------------------------------------
  // The search as the code runs it
  // ---------------------------------------------------------------------

  class Search {
    const byID: Index
    const explicit: set<string>
    var colour: map<string, Colour>
    var order: seq<string>
    var picks: map<string, string>
    var added: seq<string>

    function Snapshot(): Progress
      reads this
    {
      Progress(colour, order, picks, added)
    }

    constructor (byID: Index, explicit: set<string>)
      ensures this.byID == byID && this.explicit == explicit && Snapshot() == START
    {
      this.byID := byID;
      this.explicit := explicit;
      colour, order, picks, added := map[], [], map[], [];
    }

    method Visit(id: string, stack: seq<string>) returns (err: Option<ResolveError>)
      modifies this
      ensures match SearchFrom(byID, explicit, old(Snapshot()), id, stack)
              case Done(t) => err.None? && Snapshot() == t
              case Failed(e) => err == Some(e)
      decreases byID.Keys - colour.Keys
    {
      if id in colour {
        if colour[id] == Grey {
          return Some(ResolveError(Cycle, stack + [id]));
        }
        return None;
      }
      if id !in byID {
        return Some(ResolveError(NotInCatalog, stack + [id]));
      }
      var latest := byID[id].LatestVersion();
      if latest.None? {
        return Some(ResolveError(NoVersion, stack + [id]));
      }
      var version := latest.value;
      colour := colour[id := Grey];
      var path := stack + [id];
      ghost var entered := Snapshot();
      ghost var ids := DependencyIDs(version);
      for k := 0 to |version.dependencies|
        invariant old(colour.Keys) + {id} <= colour.Keys
        invariant SearchAll(byID, explicit, entered, ids[..k], path) == Done(Snapshot())
      {
        assert ids[..k + 1][..k] == ids[..k];
        err := Visit(version.dependencies[k].moduleID, path);
        if err.Some? {
          SearchAllFails(byID, explicit, entered, ids, path, k + 1);
          return;
        }
      }
      assert ids[..|ids|] == ids;
      colour := colour[id := Black];
      order := order + [id];
      picks := picks[id := version.version];
      if id !in explicit {
        added := added + [id];
      }
      return None;
    }
  }

  /** The search stops at its first failure. */
  lemma {:induction false} SearchAllFails(byID: Index, explicit: set<string>, s: Progress, ids: seq<string>, stack: seq<string>, k: nat)
    requires k <= |ids| && SearchAll(byID, explicit, s, ids[..k], stack).Failed?
    ensures SearchAll(byID, explicit, s, ids, stack) == SearchAll(byID, explicit, s, ids[..k], stack)
    decreases |ids|
  {
    if k == |ids| {
      assert ids[..k] == ids;
    } else {
      assert ids[..|ids| - 1][..k] == ids[..k];
      SearchAllFails(byID, explicit, s, ids[..|ids| - 1], stack, k);
    }
  }

  // ---------------------------------------------------------------------
  // What the search keeps
  // ---------------------------------------------------------------------

  /** Black is exactly the emitted order; `grey` are the IDs on the stack. */
  ghost predicate Coloured(byID: Index, s: Progress, grey: set<string>) {
    && (forall x :: x in s.colour ==> Resolved(byID, x))
    && (forall x :: x in grey <==> x in s.colour && s.colour[x] == Grey)
    && (forall x :: x in s.order <==> x in s.colour && s.colour[x] == Black)
  }

  /** The emitted order is an install order that the picks and the transitive list follow. */
  ghost predicate Emitted(byID: Index, explicit: set<string>, s: Progress) {
    && InstallOrder(byID, s.order)
    && s.picks == HeadVersions(byID, s.order)
    && s.added == Without(s.order, explicit)
  }

  ghost predicate Good(byID: Index, explicit: set<string>, s: Progress, grey: set<string>) {
    Coloured(byID, s, grey) && Emitted(byID, explicit, s)
  }

  lemma AppendKeepsInstallOrder(byID: Index, order: seq<string>, id: string)
    requires InstallOrder(byID, order) && id !in order && Resolved(byID, id)
    requires forall d :: Edge(byID, id, d) ==> d in order
    ensures InstallOrder(byID, order + [id])
  {
    var longer := order + [id];
    forall i, d | 0 <= i < |longer| && Edge(byID, longer[i], d) ensures d in longer[..i] {
      assert longer[..i] == order[..i];
    }
  }

  lemma LeaveKeepsEmitted(byID: Index, explicit: set<string>, s: Progress, id: string)
    requires Emitted(byID, explicit, s) && id !in s.order && Resolved(byID, id)
    requires forall d :: Edge(byID, id, d) ==> d in s.order
    ensures Emitted(byID, explicit, Leave(s, id, Head(byID, id).version, explicit))
  {
    AppendKeepsInstallOrder(byID, s.order, id);
    var order := s.order + [id];
    assert order[..|s.order|] == s.order;
    assert forall x :: x in order <==> x in s.order || x == id;
    assert Without(order, explicit) == Without(s.order, explicit) + if id in explicit then [] else [id];
  }

  lemma LeaveKeepsColoured(byID: Index, explicit: set<string>, s: Progress, id: string, grey: set<string>)
    requires Coloured(byID, s, grey + {id}) && Resolved(byID, id) && id !in grey
    ensures Coloured(byID, Leave(s, id, Head(byID, id).version, explicit), grey)
  {
  }

  lemma LeaveKeeps(byID: Index, explicit: set<string>, s: Progress, id: string, grey: set<string>)
    requires Good(byID, explicit, s, grey + {id}) && Resolved(byID, id) && id !in grey
    requires forall d :: d in DependencyIDs(Head(byID, id)) ==> d in s.order
    ensures Good(byID, explicit, Leave(s, id, Head(byID, id).version, explicit), grey)
  {
    var ids := DependencyIDs(Head(byID, id));
    forall d | Edge(byID, id, d) ensures d in s.order {
      var k :| 0 <= k < |ids| && ids[k] == d;
    }
    assert id in grey + {id};
    LeaveKeepsColoured(byID, explicit, s, id, grey);
    LeaveKeepsEmitted(byID, explicit, s, id);
  }

  lemma {:induction false} SearchFromKeeps(byID: Index, explicit: set<string>, s: Progress, id: string, stack: seq<string>, grey: set<string>)
    requires Good(byID, explicit, s, grey)
    ensures var r := SearchFrom(byID, explicit, s, id, stack);
            r.Done? ==> Good(byID, explicit, r.progress, grey) && id in r.progress.order
                        && forall x :: x in s.order ==> x in r.progress.order
    decreases byID.Keys - s.colour.Keys, 0
  {
    if id !in s.colour && Resolved(byID, id) {
      assert id in byID.Keys - s.colour.Keys;
      var ids := DependencyIDs(Head(byID, id));
      SearchAllKeeps(byID, explicit, Enter(s, id), ids, stack + [id], grey + {id});
      var r := SearchAll(byID, explicit, Enter(s, id), ids, stack + [id]);
      if r.Done? {
        LeaveKeeps(byID, explicit, r.progress, id, grey);
      }
    }
  }

  lemma {:induction false} SearchAllKeeps(byID: Index, explicit: set<string>, s: Progress, ids: seq<string>, stack: seq<string>, grey: set<string>)
    requires Good(byID, explicit, s, grey)
    ensures var r := SearchAll(byID, explicit, s, ids, stack);
            r.Done? ==> Good(byID, explicit, r.progress, grey)
                        && (forall x :: x in ids ==> x in r.progress.order)
                        && (forall x :: x in s.order ==> x in r.progress.order)
    decreases byID.Keys - s.colour.Keys, |ids|
  {
    if ids == [] {
    } else {
      var last := |ids| - 1;
      SearchAllKeeps(byID, explicit, s, ids[..last], stack, grey);
      var r := SearchAll(byID, explicit, s, ids[..last], stack);
      if r.Done? {
        SearchFromKeeps(byID, explicit, r.progress, ids[last], stack, grey);
        assert ids == ids[..last] + [ids[last]];
      }
    }
  }

  /** Nothing is emitted that the visited ID does not reach. */
  lemma {:induction false} SearchFromReaches(byID: Index, explicit: set<string>, s: Progress, id: string, stack: seq<string>)
    ensures match SearchFrom(byID, explicit, s, id, stack)
            case Failed(_) => true
            case Done(t) => forall x :: x in t.order ==> x in s.order || Reaches(byID, id, x)
    decreases byID.Keys - s.colour.Keys, 0
  {
    if id !in s.colour && Resolved(byID, id) {
      assert id in byID.Keys - s.colour.Keys;
      var ids := DependencyIDs(Head(byID, id));
      SearchAllReaches(byID, explicit, Enter(s, id), ids, stack + [id]);
      ReachesItself(byID, id);
      forall d, x | d in ids && Reaches(byID, d, x) ensures Reaches(byID, id, x) {
        assert Edge(byID, id, d);
        ReachesViaEdge(byID, id, d, x);
      }
    }
  }

  lemma {:induction false} SearchAllReaches(byID: Index, explicit: set<string>, s: Progress, ids: seq<string>, stack: seq<string>)
    ensures match SearchAll(byID, explicit, s, ids, stack)
            case Failed(_) => true
            case Done(t) => forall x :: x in t.order ==> x in s.order || InClosure(byID, ids, x)
    decreases byID.Keys - s.colour.Keys, |ids|
  {
    if ids == [] {
    } else {
      var last := |ids| - 1;
      SearchAllReaches(byID, explicit, s, ids[..last], stack);
      var r := SearchAll(byID, explicit, s, ids[..last], stack);
      if r.Done? {
        SearchFromReaches(byID, explicit, r.progress, ids[last], stack);
      }
    }
  }

  lemma ReachesItself(byID: Index, a: string)
    ensures Reaches(byID, a, a)
  {
    assert WalkBetween(byID, [a], a, a);
  }

  lemma ReachesViaEdge(byID: Index, a: string, b: string, c: string)
    requires Edge(byID, a, b) && Reaches(byID, b, c)
    ensures Reaches(byID, a, c)
  {
    var p :| WalkBetween(byID, p, b, c);
    var q := [a] + p;
    forall i, j | 0 <= i < j < |q| && j == i + 1 ensures Edge(byID, q[i], q[j]) {
      if i > 0 {
        assert q[i] == p[i - 1] && q[j] == p[j - 1];
      }
    }
    assert WalkBetween(byID, q, a, c);
  }

  /** A failure below `id` is witnessed by a walk that continues the stack. */
  lemma {:induction false} SearchFromWitness(byID: Index, explicit: set<string>, s: Progress, id: string, stack: seq<string>)
    requires Good(byID, explicit, s, ToSet(stack)) && NoDuplicates(stack) && Walk(byID, stack + [id])
    ensures match SearchFrom(byID, explicit, s, id, stack)
            case Failed(e) => SearchWitness(byID, e) && stack + [id] <= e.path
            case Done(_) => true
    decreases byID.Keys - s.colour.Keys, 0
  {
    var path := stack + [id];
    assert path[..|path| - 1] == stack;
    if id !in s.colour && Resolved(byID, id) {
      assert id in byID.Keys - s.colour.Keys && id !in ToSet(stack);
      assert ToSet(path) == ToSet(stack) + {id};
      var ids := DependencyIDs(Head(byID, id));
      forall d | d in ids ensures Walk(byID, path + [d]) {
        assert Edge(byID, id, d);
        WalkExtends(byID, path, d);
      }
      SearchAllWitness(byID, explicit, Enter(s, id), ids, path);
      assert forall d :: path <= path + [d];
    }
  }

  lemma {:induction false} SearchAllWitness(byID: Index, explicit: set<string>, s: Progress, ids: seq<string>, stack: seq<string>)
    requires Good(byID, explicit, s, ToSet(stack)) && NoDuplicates(stack)
    requires forall d :: d in ids ==> Walk(byID, stack + [d])
    ensures match SearchAll(byID, explicit, s, ids, stack)
            case Failed(e) => SearchWitness(byID, e) && exists d :: d in ids && stack + [d] <= e.path
            case Done(_) => true
    decreases byID.Keys - s.colour.Keys, |ids|
  {
    if ids == [] {
    } else {
      var last := |ids| - 1;
      SearchAllWitness(byID, explicit, s, ids[..last], stack);
      SearchAllKeeps(byID, explicit, s, ids[..last], stack, ToSet(stack));
      var r := SearchAll(byID, explicit, s, ids[..last], stack);
      if r.Done? {
        SearchFromWitness(byID, explicit, r.progress, ids[last], stack);
      }
    }
  }

  lemma WalkExtends(byID: Index, p: seq<string>, d: string)
    requires Walk(byID, p) && Edge(byID, p[|p| - 1], d)
    ensures Walk(byID, p + [d])
  {
  }

  // ---------------------------------------------------------------------
  // Resolve
  // ---------------------------------------------------------------------

  function FirstFoe(foes: seq<string>, closure: seq<string>): (r: Option<string>)
    ensures r.None? <==> forall y :: y in foes ==> y !in closure
    ensures r.Some? ==> r.value in foes && r.value in closure
  {
    if foes == [] then None
    else if foes[0] in closure then Some(foes[0])
    else FirstFoe(foes[1..], closure)
  }

  /** The conflict pass over `order`: the first entry with a foe in the closure. */
  function FirstConflict(byID: Index, order: seq<string>, closure: seq<string>): (r: Option<ResolveError>)
    requires forall x :: x in order ==> Resolved(byID, x)
    ensures r.None? <==> forall x, y :: x in order && y in closure ==> y !in Head(byID, x).conflicts
    ensures r.Some? ==> exists x, y :: x in order && y in closure && y in Head(byID, x).conflicts
                                       && r.value == ResolveError(Conflict, [x, y])
  {
    if order == [] then None
    else
      match FirstFoe(Head(byID, order[0]).conflicts, closure)
      case Some(y) => Some(ResolveError(Conflict, [order[0], y]))
      case None => FirstConflict(byID, order[1..], closure)
  }

  /** What `Resolve` computes; the laws about it follow below. */
  function Resolution(selected: seq<string>, byID: Index): Result<Plan, ResolveError> {
    var explicit := ToSet(selected);
    SearchAllKeeps(byID, explicit, START, selected, [], {});
    match SearchAll(byID, explicit, START, selected, [])
    case Failed(e) => Err(e)
    case Done(t) =>
      var clash := FirstConflict(byID, t.order, t.order);
      if clash.Some? then Err(clash.value) else Ok(Plan(t.order, t.picks, t.added))
  }

  method BuildIndex(catalog: seq<Module>) returns (byID: Index)
    ensures byID == IndexOf(catalog)
  {
    byID := map[];
    for i := 0 to |catalog|
      invariant byID == IndexOf(catalog[..i])
    {
      assert catalog[..i + 1][..i] == catalog[..i];
      byID := byID[catalog[i].id := catalog[i]];
    }
    assert catalog[..|catalog|] == catalog;
  }

  method ConflictPass(byID: Index, order: seq<string>) returns (err: Option<ResolveError>)
    requires forall x :: x in order ==> Resolved(byID, x)
    ensures err == FirstConflict(byID, order, order)
  {
    var inClosure := ToSet(order);
    for i := 0 to |order|
      invariant FirstConflict(byID, order, order) == FirstConflict(byID, order[i..], order)
    {
      var foes := Head(byID, order[i]).conflicts;
      for k := 0 to |foes|
        invariant FirstFoe(foes, order) == FirstFoe(foes[k..], order)
      {
        if foes[k] in inClosure {
          return Some(ResolveError(Conflict, [order[i], foes[k]]));
        }
      }
    }
    return None;
  }

  method Resolve(selected: seq<string>, catalog: seq<Module>) returns (r: Result<Plan, ResolveError>)
    ensures r == Resolution(selected, IndexOf(catalog))
  {
    var byID := BuildIndex(catalog);
    var explicit := ToSet(selected);
    var search := new Search(byID, explicit);
    for i := 0 to |selected|
      invariant fresh(search)
      invariant SearchAll(byID, explicit, START, selected[..i], []) == Done(search.Snapshot())
    {
      assert selected[..i + 1][..i] == selected[..i];
      var err := search.Visit(selected[i], []);
      if err.Some? {
        SearchAllFails(byID, explicit, START, selected, [], i + 1);
        return Err(err.value);
      }
    }
    assert selected[..|selected|] == selected;
    SearchAllKeeps(byID, explicit, START, selected, [], {});
    var clash := ConflictPass(byID, search.order);
    if clash.Some? {
      return Err(clash.value);
    }
    return Ok(Plan(search.order, search.picks, search.added));
  }

  // ---------------------------------------------------------------------
  // Laws
  // ---------------------------------------------------------------------

  /** An install order leaves no edge that escapes it, so a walk that starts
      inside stays inside, and moves strictly towards the front. */
  lemma {:induction false} WalkDescends(byID: Index, order: seq<string>, p: seq<string>, i: nat) returns (j: nat)
    requires InstallOrder(byID, order) && Walk(byID, p)
    requires i < |order| && order[i] == p[0]
    ensures j < |order| && order[j] == p[|p| - 1]
    ensures |p| > 1 ==> j < i
    decreases |p|
  {
    if |p| == 1 {
      j := i;
    } else {
      assert Edge(byID, p[0], p[1]);
      assert p[1] in order[..i];
      var m :| 0 <= m < i && order[m] == p[1];
      SubWalk(byID, p, 1, |p| - 1);
      j := WalkDescends(byID, order, p[1..], m);
    }
  }

  /** The part of a walk between two of its positions is a walk. */
  lemma SubWalk(byID: Index, p: seq<string>, i: nat, j: nat)
    requires Walk(byID, p) && i <= j < |p|
    ensures WalkBetween(byID, p[i..j + 1], p[i], p[j])
    ensures j == |p| - 1 ==> p[i..j + 1] == p[i..]
  {
  }

  /** An install order that contains the roots and nothing beyond their closure
      is that closure; and a graph that has an install order has no ring. */
  lemma OrderIsClosure(byID: Index, selected: seq<string>, order: seq<string>)
    requires InstallOrder(byID, order)
    requires forall x :: x in selected ==> x in order
    requires forall x :: x in order ==> InClosure(byID, selected, x)
    ensures forall x :: x in order <==> InClosure(byID, selected, x)
    ensures Complete(byID, selected) && Acyclic(byID, selected)
  {
    forall x | InClosure(byID, selected, x) ensures x in order {
      var r :| r in selected && Reaches(byID, r, x);
      var p :| WalkBetween(byID, p, r, x);
      var i :| 0 <= i < |order| && order[i] == r;
      var j := WalkDescends(byID, order, p, i);
    }
    forall p | Cyclic(byID, p) ensures !InClosure(byID, selected, p[0]) {
      if InClosure(byID, selected, p[0]) {
        var i :| 0 <= i < |order| && order[i] == p[0];
        var j := WalkDescends(byID, order, p, i);
        assert false;
      }
    }
  }

  lemma WitnessRefutes(byID: Index, selected: seq<string>, e: ResolveError)
    requires SearchWitness(byID, e) && e.path[0] in selected
    ensures e.code == Cycle ==> !Acyclic(byID, selected)
    ensures e.code != Cycle ==> !Complete(byID, selected)
  {
    var p := e.path;
    var n := |p| - 1;
    SubWalk(byID, p, 0, n);
    assert InClosure(byID, selected, p[n]);
    if e.code == Cycle {
      var i :| 0 <= i < n && p[..n][i] == p[n];
      SubWalk(byID, p, i, n);
      assert Cyclic(byID, p[i..n + 1]);
    }
  }

  /** The search succeeds on, and only on, complete acyclic closures. */
  lemma SearchVerdict(byID: Index, selected: seq<string>)
    ensures var r := SearchAll(byID, ToSet(selected), START, selected, []);
            && (r.Done? <==> Complete(byID, selected) && Acyclic(byID, selected))
            && (r.Done? ==> Emitted(byID, ToSet(selected), r.progress))
            && (r.Done? ==> forall x :: x in r.progress.order <==> InClosure(byID, selected, x))
            && (r.Failed? ==> SearchWitness(byID, r.error) && r.error.path[0] in selected)
  {
    var explicit := ToSet(selected);
    SearchAllKeeps(byID, explicit, START, selected, [], {});
    SearchAllReaches(byID, explicit, START, selected, []);
    SearchAllWitness(byID, explicit, START, selected, []);
    var r := SearchAll(byID, explicit, START, selected, []);
    if r.Done? {
      OrderIsClosure(byID, selected, r.progress.order);
    } else {
      var d :| d in selected && [] + [d] <= r.error.path;
      WitnessRefutes(byID, selected, r.error);
    }
  }

  /** `Resolve` succeeds exactly on the resolvable selections. */
  lemma ResolvesExactly(byID: Index, selected: seq<string>)
    ensures Resolution(selected, byID).Ok? <==> Resolvable(byID, selected)
  {
    SearchVerdict(byID, selected);
  }

  /** A plan is the closure of the selection in install order, with the head
      version of every member, and lists as transitive what was not selected. */
  lemma PlanCorrect(byID: Index, selected: seq<string>)
    requires Resolution(selected, byID).Ok?
    ensures var plan := Resolution(selected, byID).value;
            && InstallOrder(byID, plan.order)
            && (forall x :: x in plan.order <==> InClosure(byID, selected, x))
            && plan.picks == HeadVersions(byID, plan.order)
            && plan.addedTransitively == Without(plan.order, ToSet(selected))
  {
    SearchVerdict(byID, selected);
  }

  /** Every error names a fact of the catalog. A conflict is reported exactly
      for complete acyclic closures; a ring or a missing module is never
      reported of a closure that has none. */
  lemma ErrorsAreGenuine(byID: Index, selected: seq<string>)
    requires Resolution(selected, byID).Err?
    ensures Genuine(byID, selected, Resolution(selected, byID).error)
    ensures var code := Resolution(selected, byID).error.code;
            && (code == Conflict <==> Complete(byID, selected) && Acyclic(byID, selected))
            && (code == Cycle ==> !Acyclic(byID, selected))
            && (code == NotInCatalog || code == NoVersion ==> !Complete(byID, selected))
  {
    if Resolution(selected, byID).error.code != Conflict {
      SearchVerdict(byID, selected);
      WitnessRefutes(byID, selected, Resolution(selected, byID).error);
    }
    SearchVerdict(byID, selected);
  }

  /** Selecting less never breaks a plan; in particular the verdict ignores the
      order and the repetition of the selected IDs. */
  lemma SubselectionResolves(byID: Index, s: seq<string>, t: seq<string>)
    requires forall x :: x in t ==> x in s
    requires Resolution(s, byID).Ok?
    ensures Resolution(t, byID).Ok?
  {
    ResolvesExactly(byID, s);
    ResolvesExactly(byID, t);
    assert forall x :: InClosure(byID, t, x) ==> InClosure(byID, s, x);
  }

  /** Black IDs are skipped. */
  lemma {:induction false} SkipsEmitted(byID: Index, explicit: set<string>, s: Progress, ids: seq<string>, stack: seq<string>)
    requires forall x :: x in ids ==> x in s.colour && s.colour[x] == Black
    ensures SearchAll(byID, explicit, s, ids, stack) == Done(s)
    decreases |ids|
  {
    if ids == [] {
    } else {
      SkipsEmitted(byID, explicit, s, ids[..|ids| - 1], stack);
    }
  }

  lemma EmitsAtOnce(byID: Index, explicit: set<string>, s: Progress, id: string)
    requires Good(byID, explicit, s, {}) && id !in s.colour && Resolved(byID, id)
    requires forall d :: Edge(byID, id, d) ==> d in s.order
    ensures SearchFrom(byID, explicit, s, id, [])
         == Done(Leave(Enter(s, id), id, Head(byID, id).version, explicit))
  {
    var ids := DependencyIDs(Head(byID, id));
    forall x | x in ids ensures x in s.order {
      assert Edge(byID, id, x);
    }
    SkipsEmitted(byID, explicit, Enter(s, id), ids, [] + [id]);
  }

  lemma InstallOrderSplits(byID: Index, order: seq<string>, front: seq<string>, id: string)
    requires InstallOrder(byID, order) && order == front + [id]
    ensures InstallOrder(byID, front) && id !in front && Resolved(byID, id)
    ensures forall d :: Edge(byID, id, d) ==> d in front
  {
    assert order[|front|] == id && order[..|front|] == front;
    forall i, d | 0 <= i < |front| && Edge(byID, front[i], d) ensures d in front[..i] {
      assert front[i] == order[i] && front[..i] == order[..i];
    }
  }

  lemma EmitsNext(byID: Index, explicit: set<string>, s: Progress, front: seq<string>, id: string)
    requires Good(byID, explicit, s, {}) && s.order == front
    requires id !in front && Resolved(byID, id)
    requires forall d :: Edge(byID, id, d) ==> d in front
    ensures var r := SearchFrom(byID, explicit, s, id, []);
            r.Done? && r.progress.order == front + [id]
  {
    EmitsAtOnce(byID, explicit, s, id);
  }

  /** On an install order the search emits each ID exactly when it visits it. */
  lemma {:induction false} SearchFollowsInstallOrder(byID: Index, explicit: set<string>, order: seq<string>)
    requires InstallOrder(byID, order)
    ensures var r := SearchAll(byID, explicit, START, order, []);
            r.Done? && r.progress.order == order
  {
    if order == [] {
    } else {
      var front, id := order[..|order| - 1], order[|order| - 1];
      InstallOrderSplits(byID, order, front, id);
      SearchFollowsInstallOrder(byID, explicit, front);
      SearchAllKeeps(byID, explicit, START, front, [], {});
      EmitsNext(byID, explicit, SearchAll(byID, explicit, START, front, []).progress, front, id);
    }
  }

  /** Replaying a plan's order reproduces the plan, with nothing added. */
  lemma ReplayIsFixedPoint(byID: Index, selected: seq<string>)
    requires Resolution(selected, byID).Ok?
    ensures var plan := Resolution(selected, byID).value;
            Resolution(plan.order, byID) == Ok(Plan(plan.order, plan.picks, []))
  {
    PlanCorrect(byID, selected);
    var order := Resolution(selected, byID).value.order;
    var explicit := ToSet(order);
    SearchFollowsInstallOrder(byID, explicit, order);
    SearchAllKeeps(byID, explicit, START, order, [], {});
    NothingWithout(order, explicit);
  }

  lemma {:induction false} NothingWithout(order: seq<string>, explicit: set<string>)
    requires forall x :: x in order ==> x in explicit
    ensures Without(order, explicit) == []
  {
    if order == [] {
    } else {
      NothingWithout(order[..|order| - 1], explicit);
    }
  }

  // ---------------------------------------------------------------------
  // The index
  // ---------------------------------------------------------------------

  /** With duplicate IDs the index keeps the last module of the catalog. */
  lemma {:induction false} IndexKeepsLast(catalog: seq<Module>, id: string)
    ensures id in IndexOf(catalog) <==> exists i :: 0 <= i < |catalog| && catalog[i].id == id
    ensures id in IndexOf(catalog) ==>
              exists i :: 0 <= i < |catalog| && catalog[i].id == id && IndexOf(catalog)[id] == catalog[i]
                          && forall j :: i < j < |catalog| ==> catalog[j].id != id
  {
    if catalog == [] {
    } else {
      var last := |catalog| - 1;
      IndexKeepsLast(catalog[..last], id);
      if catalog[last].id == id {
        assert IndexOf(catalog)[id] == catalog[last];
      } else if id in IndexOf(catalog[..last]) {
        var i :| 0 <= i < last && catalog[..last][i].id == id && IndexOf(catalog[..last])[id] == catalog[..last][i]
                 && forall j :: i < j < last ==> catalog[..last][j].id != id;
        assert catalog[i].id == id;
        forall j | i < j < |catalog| ensures catalog[j].id != id {
          if j < last {
            assert catalog[..last][j] == catalog[j];
          }
        }
      }
    }
  }

  /** The pick is the head version whatever its status: a module whose newest
      version is a draft is planned with that draft, published history or not. */
  lemma PicksMayBeDrafts(id: string, draft: ModuleVersion, published: ModuleVersion)
    requires draft.status == DRAFT && published.status == PUBLISHED
    requires draft.dependencies == [] && draft.conflicts == []
    ensures var catalog := [Module(id, [ANY_OS], [], BUNDLED, [draft, published])];
            Resolution([id], IndexOf(catalog)) == Ok(Plan([id], map[id := draft.version], []))
  {
    var catalog := [Module(id, [ANY_OS], [], BUNDLED, [draft, published])];
    var byID := IndexOf(catalog);
    assert catalog[..0] == [] && IndexOf([]) == map[];
    assert byID == map[id := catalog[0]];
    assert Head(byID, id) == draft;
    var explicit := ToSet([id]);
    assert DependencyIDs(draft) == [] && [id][..0] == [];
    var done := Progress(map[id := Black], [id], map[id := draft.version], []);
    assert id in explicit && SearchFrom(byID, explicit, START, id, []) == Done(done);
    assert SearchAll(byID, explicit, START, [id], []) == Done(done);
    assert [id][1..] == [] && FirstConflict(byID, [id][1..], [id]) == None;
  }

  /** The version that a plan picks for `id` is a published one. */
  predicate PicksPublished(byID: Index, plan: Plan, id: string) {
    id in byID && id in plan.picks &&
    exists v :: v in byID[id].versions && v.version == plan.picks[id] && v.status == PUBLISHED
  }

  ghost predicate HeadsPublished(byID: Index, selected: seq<string>) {
    forall id :: InClosure(byID, selected, id) && Resolved(byID, id) ==> Head(byID, id).status == PUBLISHED
  }

  /** A plan picks published versions for all its modules if and only if every
      module of the closure has a published version at its head; where version
      strings are unique, the picked strings then name published versions, and
      only then. */
  lemma PicksPublishedExactly(byID: Index, selected: seq<string>)
    requires Resolution(selected, byID).Ok?
    ensures var plan := Resolution(selected, byID).value;
            && ((forall id :: id in plan.order ==> Resolved(byID, id) && Head(byID, id).status == PUBLISHED)
                <==> HeadsPublished(byID, selected))
            && ((forall id :: id in byID ==> NamesUnique(byID[id].versions)) ==>
                  ((forall id :: id in plan.order ==> PicksPublished(byID, plan, id)) <==> HeadsPublished(byID, selected)))
  {
    PlanCorrect(byID, selected);
    var plan := Resolution(selected, byID).value;
    if forall id :: id in byID ==> NamesUnique(byID[id].versions) {
      forall id | id in plan.order
        ensures Resolved(byID, id) && (PicksPublished(byID, plan, id) <==> Head(byID, id).status == PUBLISHED)
      {
        PickIsHead(byID, plan, id);
      }
    }
  }

  lemma PickIsHead(byID: Index, plan: Plan, id: string)
    requires InstallOrder(byID, plan.order) && plan.picks == HeadVersions(byID, plan.order) && id in plan.order
    requires forall x :: x in byID ==> NamesUnique(byID[x].versions)
    ensures Resolved(byID, id) && (PicksPublished(byID, plan, id) <==> Head(byID, id).status == PUBLISHED)
  {
    var i :| 0 <= i < |plan.order| && plan.order[i] == id;
    assert Head(byID, id) in byID[id].versions;
    forall v | v in byID[id].versions && v.version == plan.picks[id] ensures v == Head(byID, id) {
      var k :| 0 <= k < |byID[id].versions| && byID[id].versions[k] == v;
    }
  }
}
