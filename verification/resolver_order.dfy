/** What the resolver returns, said without its search: which version each
    module is planned at, in which order the plan lists the modules, and which
    of several defects is reported. */
module ResolverOrder {
  import opened Wrappers
  import opened ModuleTypes
  import opened DependencyResolver

  // ---------------------------------------------------------------------
  // The head of the version list
  // ---------------------------------------------------------------------

  /** The resolver reads the first version of a module's list, whatever its
      status, and nothing else of the list. */
  lemma HeadsAreFirst(byID: Index, id: string)
    ensures Resolved(byID, id) <==> id in byID && byID[id].versions != []
    ensures Resolved(byID, id) ==> Head(byID, id) == byID[id].versions[0]
    ensures forall d :: Edge(byID, id, d) <==>
              id in byID && byID[id].versions != []
              && exists k :: 0 <= k < |byID[id].versions[0].dependencies|
                             && byID[id].versions[0].dependencies[k].moduleID == d
  {
  }

  /** Every planned module has versions and is planned at the first of them; its
      dependencies stand before it, and no member of the plan is among its
      conflicts. */
  lemma PlanTakesFirstVersions(byID: Index, selected: seq<string>, i: nat)
    requires Resolution(selected, byID).Ok? && i < |Resolution(selected, byID).value.order|
    ensures var plan := Resolution(selected, byID).value;
            var x := plan.order[i];
            && x in byID && byID[x].versions != []
            && x in plan.picks && plan.picks[x] == byID[x].versions[0].version
            && (forall k :: 0 <= k < |byID[x].versions[0].dependencies| ==>
                  byID[x].versions[0].dependencies[k].moduleID in plan.order[..i])
            && (forall y :: y in plan.order ==> y !in byID[x].versions[0].conflicts)
  {
    PlanCorrect(byID, selected);
    ResolvesExactly(byID, selected);
    var plan := Resolution(selected, byID).value;
    var x := plan.order[i];
    assert Head(byID, x) == byID[x].versions[0];
    forall k | 0 <= k < |byID[x].versions[0].dependencies|
      ensures byID[x].versions[0].dependencies[k].moduleID in plan.order[..i]
    {
      assert Edge(byID, x, byID[x].versions[0].dependencies[k].moduleID);
    }
  }

  /** The transitive additions are the planned modules that were not selected,
      in the order of the plan. */
  lemma AddedExactly(byID: Index, selected: seq<string>)
    requires Resolution(selected, byID).Ok?
    ensures var plan := Resolution(selected, byID).value;
            && (forall x :: x in plan.addedTransitively <==> x in plan.order && x !in selected)
            && (forall x :: x in plan.picks <==> x in plan.order)
            && Precede(plan.addedTransitively, plan.order)
  {
    PlanCorrect(byID, selected);
    WithoutExactly(Resolution(selected, byID).value.order, ToSet(selected));
  }

  /** Whatever comes later in `s` comes later in `t`. */
  ghost predicate Precede(s: seq<string>, t: seq<string>) {
    forall i, j :: 0 <= i < j < |s| ==> exists a, b :: 0 <= a < b < |t| && t[a] == s[i] && t[b] == s[j]
  }

  lemma {:induction false} WithoutExactly(order: seq<string>, explicit: set<string>)
    ensures forall x :: x in Without(order, explicit) <==> x in order && x !in explicit
    ensures Precede(Without(order, explicit), order)
  {
    if order == [] {
    } else {
      var front, x := order[..|order| - 1], order[|order| - 1];
      assert order == front + [x];
      WithoutExactly(front, explicit);
      var before, s := Without(front, explicit), Without(order, explicit);
      forall i, j | 0 <= i < j < |s| ensures exists a, b :: 0 <= a < b < |order| && order[a] == s[i] && order[b] == s[j] {
        if j < |before| {
          var a, b :| 0 <= a < b < |front| && front[a] == before[i] && front[b] == before[j];
          assert order[a] == s[i] && order[b] == s[j];
        } else {
          assert before[i] in front;
          var a :| 0 <= a < |front| && front[a] == before[i];
          assert order[a] == s[i] && order[|front|] == s[j];
        }
      }
    }
  }

  // ---------------------------------------------------------------------
  // The reported conflict
  // ---------------------------------------------------------------------

  /** The `k`-th declared conflict of the `i`-th planned module is planned too. */
  predicate ClashAt(byID: Index, order: seq<string>, closure: seq<string>, i: int, k: int) {
    && 0 <= i < |order| && order[i] in byID && byID[order[i]].versions != []
    && 0 <= k < |byID[order[i]].versions[0].conflicts|
    && byID[order[i]].versions[0].conflicts[k] in closure
  }

  lemma {:induction false} FirstFoeExactly(foes: seq<string>, closure: seq<string>, k: int)
    requires 0 <= k < |foes| && foes[k] in closure && forall j :: 0 <= j < k ==> foes[j] !in closure
    ensures FirstFoe(foes, closure) == Some(foes[k])
    decreases k
  {
    if k == 0 {
    } else {
      assert foes[1..][k - 1] == foes[k] && foes[0] !in closure;
      FirstFoeExactly(foes[1..], closure, k - 1);
    }
  }

  /** Of all conflicts the first one is reported: of the first planned module
      that has one, the first one it declares. */
  lemma {:induction false} FirstConflictExactly(byID: Index, order: seq<string>, closure: seq<string>, i: int, k: int)
    requires forall x :: x in order ==> Resolved(byID, x)
    requires ClashAt(byID, order, closure, i, k)
    requires forall a, b :: ClashAt(byID, order, closure, a, b) ==> i < a || (i == a && k <= b)
    ensures FirstConflict(byID, order, closure)
         == Some(ResolveError(Conflict, [order[i], byID[order[i]].versions[0].conflicts[k]]))
    decreases |order|
  {
    var foes := Head(byID, order[0]).conflicts;
    assert foes == byID[order[0]].versions[0].conflicts;
    if i == 0 {
      forall j | 0 <= j < k ensures foes[j] !in closure {
        assert !ClashAt(byID, order, closure, 0, j);
      }
      FirstFoeExactly(foes, closure, k);
    } else {
      forall y | y in foes ensures y !in closure {
        var j :| 0 <= j < |foes| && foes[j] == y;
        assert !ClashAt(byID, order, closure, 0, j);
      }
      var rest := order[1..];
      assert ClashAt(byID, rest, closure, i - 1, k);
      forall a, b | ClashAt(byID, rest, closure, a, b) ensures i - 1 < a || (i - 1 == a && k <= b) {
        assert ClashAt(byID, order, closure, a + 1, b);
      }
      FirstConflictExactly(byID, rest, closure, i - 1, k);
    }
  }

  // ---------------------------------------------------------------------
  // Selections from left to right
  // ---------------------------------------------------------------------

  /** The selection only decides what is marked as added. */
  ghost predicate Agree(r: Outcome, q: Outcome) {
    match r
    case Failed(e) => q == Failed(e)
    case Done(s) => q.Done? && q.progress.colour == s.colour && q.progress.order == s.order && q.progress.picks == s.picks
  }

  lemma {:induction false} SearchFromIgnoresMarks(
    byID: Index, e1: set<string>, e2: set<string>, s: Progress, t: Progress, id: string, stack: seq<string>)
    requires Agree(Done(s), Done(t))
    ensures Agree(SearchFrom(byID, e1, s, id, stack), SearchFrom(byID, e2, t, id, stack))
    decreases byID.Keys - s.colour.Keys, 0
  {
    if id in s.colour || !Resolved(byID, id) {
    } else {
      assert id in byID.Keys - s.colour.Keys;
      SearchAllIgnoresMarks(byID, e1, e2, Enter(s, id), Enter(t, id), DependencyIDs(Head(byID, id)), stack + [id]);
    }
  }

  lemma {:induction false} SearchAllIgnoresMarks(
    byID: Index, e1: set<string>, e2: set<string>, s: Progress, t: Progress, ids: seq<string>, stack: seq<string>)
    requires Agree(Done(s), Done(t))
    ensures Agree(SearchAll(byID, e1, s, ids, stack), SearchAll(byID, e2, t, ids, stack))
    decreases byID.Keys - s.colour.Keys, |ids|
  {
    if ids == [] {
    } else {
      var front, last := ids[..|ids| - 1], ids[|ids| - 1];
      SearchAllIgnoresMarks(byID, e1, e2, s, t, front, stack);
      var r, q := SearchAll(byID, e1, s, front, stack), SearchAll(byID, e2, t, front, stack);
      if r.Done? {
        SearchFromIgnoresMarks(byID, e1, e2, r.progress, q.progress, last, stack);
      }
    }
  }

  /** The search from nothing, for any marks. */
  function Plain(byID: Index, selected: seq<string>): Outcome {
    SearchAll(byID, {}, START, selected, [])
  }

  lemma PlainAppend(byID: Index, selected: seq<string>, x: string)
    ensures Plain(byID, selected).Failed? ==> Plain(byID, selected + [x]) == Plain(byID, selected)
    ensures Plain(byID, selected).Done? ==>
              Plain(byID, selected + [x]) == SearchFrom(byID, {}, Plain(byID, selected).progress, x, [])
  {
    assert (selected + [x])[..|selected|] == selected;
  }

  lemma PlainOfOne(byID: Index, x: string)
    ensures Plain(byID, [x]) == SearchFrom(byID, {}, START, x, [])
  {
    PlainAppend(byID, [], x);
    assert [] + [x] == [x] && Plain(byID, []) == Done(START);
  }

  lemma ResolutionIsPlain(byID: Index, selected: seq<string>)
    ensures Agree(Plain(byID, selected), SearchAll(byID, ToSet(selected), START, selected, []))
    ensures Plain(byID, selected).Failed? ==> Resolution(selected, byID) == Err(Plain(byID, selected).error)
    ensures Resolution(selected, byID).Ok? ==>
              Plain(byID, selected).Done? && Resolution(selected, byID).value.order == Plain(byID, selected).progress.order
    ensures Plain(byID, selected).Failed? <==>
              Resolution(selected, byID).Err? && Resolution(selected, byID).error.code != Conflict
  {
    SearchAllIgnoresMarks(byID, {}, ToSet(selected), START, START, selected, []);
    SearchVerdict(byID, selected);
  }

  /** Selected modules are searched from left to right: a ring or a gap found in
      the beginning of a selection is what the whole selection reports. */
  lemma FirstDefectIsReported(byID: Index, selected: seq<string>, more: seq<string>)
    requires Resolution(selected, byID).Err? && Resolution(selected, byID).error.code != Conflict
    ensures Resolution(selected + more, byID) == Resolution(selected, byID)
  {
    ResolutionIsPlain(byID, selected);
    ResolutionIsPlain(byID, selected + more);
    assert (selected + more)[..|selected|] == selected;
    SearchAllFails(byID, {}, START, selected + more, [], |selected|);
  }

  // ---------------------------------------------------------------------
  // Selecting one more module
  // ---------------------------------------------------------------------

  /** `B` holds the dependencies of its members. */
  ghost predicate Closed(byID: Index, B: set<string>) {
    forall a, d :: a in B && Edge(byID, a, d) ==> d in B
  }

  lemma InstallOrderIsClosed(byID: Index, order: seq<string>)
    requires InstallOrder(byID, order)
    ensures Closed(byID, ToSet(order))
  {
    forall a, d | a in ToSet(order) && Edge(byID, a, d) ensures d in ToSet(order) {
      var i :| 0 <= i < |order| && order[i] == a;
      assert d in order[..i];
    }
  }

  /** A finished visit leaves known colours alone and new IDs black. */
  lemma {:induction false} SearchFromColours(byID: Index, explicit: set<string>, s: Progress, id: string, stack: seq<string>)
    ensures var r := SearchFrom(byID, explicit, s, id, stack);
            r.Done? ==> Blackened(s, r.progress)
    decreases byID.Keys - s.colour.Keys, 0
  {
    if id in s.colour || !Resolved(byID, id) {
    } else {
      assert id in byID.Keys - s.colour.Keys;
      SearchAllColours(byID, explicit, Enter(s, id), DependencyIDs(Head(byID, id)), stack + [id]);
    }
  }

  lemma {:induction false} SearchAllColours(byID: Index, explicit: set<string>, s: Progress, ids: seq<string>, stack: seq<string>)
    ensures var r := SearchAll(byID, explicit, s, ids, stack);
            r.Done? ==> Blackened(s, r.progress)
    decreases byID.Keys - s.colour.Keys, |ids|
  {
    if ids == [] {
    } else {
      var front, last := ids[..|ids| - 1], ids[|ids| - 1];
      SearchAllColours(byID, explicit, s, front, stack);
      var r := SearchAll(byID, explicit, s, front, stack);
      if r.Done? {
        SearchFromColours(byID, explicit, r.progress, last, stack);
      }
    }
  }

  ghost predicate Blackened(s: Progress, t: Progress) {
    && (forall x :: x in s.colour ==> x in t.colour && t.colour[x] == s.colour[x])
    && (forall x :: x in t.colour && x !in s.colour ==> t.colour[x] == Black)
  }

  /** Nothing outside `B` is new in `t`. */
  ghost predicate NewOnlyIn(B: set<string>, s: Progress, t: Progress) {
    && (forall x :: x in t.colour && x !in B ==> x in s.colour)
    && Without(t.order, B) == Without(s.order, B)
  }

  /** A visit to a closed set stays in it. */
  lemma {:induction false} SearchFromStays(byID: Index, explicit: set<string>, B: set<string>, s: Progress, id: string, stack: seq<string>)
    requires Closed(byID, B) && id in B
    ensures var r := SearchFrom(byID, explicit, s, id, stack);
            r.Done? ==> NewOnlyIn(B, s, r.progress)
    decreases byID.Keys - s.colour.Keys, 0
  {
    if id in s.colour || !Resolved(byID, id) {
    } else {
      assert id in byID.Keys - s.colour.Keys;
      var ids := DependencyIDs(Head(byID, id));
      forall d | d in ids ensures d in B {
        assert Edge(byID, id, d);
      }
      SearchAllStays(byID, explicit, B, Enter(s, id), ids, stack + [id]);
      var r := SearchAll(byID, explicit, Enter(s, id), ids, stack + [id]);
      if r.Done? {
        WithoutAppend(r.progress.order, id, B);
      }
    }
  }

  lemma {:induction false} SearchAllStays(byID: Index, explicit: set<string>, B: set<string>, s: Progress, ids: seq<string>, stack: seq<string>)
    requires Closed(byID, B) && forall d :: d in ids ==> d in B
    ensures var r := SearchAll(byID, explicit, s, ids, stack);
            r.Done? ==> NewOnlyIn(B, s, r.progress)
    decreases byID.Keys - s.colour.Keys, |ids|
  {
    if ids == [] {
    } else {
      var front, last := ids[..|ids| - 1], ids[|ids| - 1];
      SearchAllStays(byID, explicit, B, s, front, stack);
      var r := SearchAll(byID, explicit, s, front, stack);
      if r.Done? {
        SearchFromStays(byID, explicit, B, r.progress, last, stack);
      }
    }
  }

  lemma WithoutAppend(order: seq<string>, id: string, B: set<string>)
    ensures Without(order + [id], B) == Without(order, B) + if id in B then [] else [id]
  {
    assert (order + [id])[..|order|] == order;
  }

  /** `t` has emitted `base`, the members of `B`, and otherwise what `s` has. */
  ghost predicate Ahead(B: set<string>, base: seq<string>, s: Progress, t: Progress) {
    && (forall x :: x in t.colour <==> x in s.colour || x in B)
    && (forall x :: x in B && x in t.colour ==> t.colour[x] == Black)
    && (forall x :: x in s.colour && x in t.colour ==> s.colour[x] == t.colour[x])
    && t.order == base + Without(s.order, B)
  }

  lemma LeaveStaysAhead(
    B: set<string>, base: seq<string>, s: Progress, t: Progress, id: string, version: string, e1: set<string>, e2: set<string>)
    requires Ahead(B, base, s, t) && id !in B
    ensures Ahead(B, base, Leave(s, id, version, e1), Leave(t, id, version, e2))
  {
    WithoutAppend(s.order, id, B);
  }

  /** A visit that also works without knowing `B` only adds what is not in `B`. */
  lemma {:induction false} SearchFromSkips(
    byID: Index, e1: set<string>, e2: set<string>, B: set<string>, base: seq<string>,
    s: Progress, t: Progress, id: string, st1: seq<string>, st2: seq<string>)
    requires Closed(byID, B) && Ahead(B, base, s, t)
    requires SearchFrom(byID, e1, s, id, st1).Done?
    ensures var q := SearchFrom(byID, e2, t, id, st2);
            q.Done? && Ahead(B, base, SearchFrom(byID, e1, s, id, st1).progress, q.progress)
    decreases byID.Keys - s.colour.Keys, 0
  {
    var r := SearchFrom(byID, e1, s, id, st1);
    SearchFromColours(byID, e1, s, id, st1);
    if id in B {
      SearchFromStays(byID, e1, B, s, id, st1);
    } else if id !in s.colour {
      assert id in byID.Keys - s.colour.Keys;
      var ids := DependencyIDs(Head(byID, id));
      SearchAllSkips(byID, e1, e2, B, base, Enter(s, id), Enter(t, id), ids, st1 + [id], st2 + [id]);
      var below := SearchAll(byID, e1, Enter(s, id), ids, st1 + [id]).progress;
      var beside := SearchAll(byID, e2, Enter(t, id), ids, st2 + [id]).progress;
      LeaveStaysAhead(B, base, below, beside, id, Head(byID, id).version, e1, e2);
    }
  }

  lemma {:induction false} SearchAllSkips(
    byID: Index, e1: set<string>, e2: set<string>, B: set<string>, base: seq<string>,
    s: Progress, t: Progress, ids: seq<string>, st1: seq<string>, st2: seq<string>)
    requires Closed(byID, B) && Ahead(B, base, s, t)
    requires SearchAll(byID, e1, s, ids, st1).Done?
    ensures var q := SearchAll(byID, e2, t, ids, st2);
            q.Done? && Ahead(B, base, SearchAll(byID, e1, s, ids, st1).progress, q.progress)
    decreases byID.Keys - s.colour.Keys, |ids|
  {
    if ids == [] {
    } else {
      var front, last := ids[..|ids| - 1], ids[|ids| - 1];
      SearchAllSkips(byID, e1, e2, B, base, s, t, front, st1, st2);
      var r, q := SearchAll(byID, e1, s, front, st1), SearchAll(byID, e2, t, front, st2);
      SearchFromSkips(byID, e1, e2, B, base, r.progress, q.progress, last, st1, st2);
    }
  }

  lemma SearchCompose(byID: Index, selected: seq<string>, x: string)
    requires Plain(byID, selected).Done? && Plain(byID, [x]).Done?
    ensures var before, own := Plain(byID, selected).progress.order, Plain(byID, [x]).progress.order;
            var all := Plain(byID, selected + [x]);
            all.Done? && all.progress.order == before + Without(own, ToSet(before))
  {
    SearchAllKeeps(byID, {}, START, selected, [], {});
    var t := Plain(byID, selected).progress;
    InstallOrderIsClosed(byID, t.order);
    PlainOfOne(byID, x);
    PlainAppend(byID, selected, x);
    assert t.order == t.order + Without(START.order, ToSet(t.order));
    SearchFromSkips(byID, {}, {}, ToSet(t.order), t.order, START, t, x, [], []);
  }

  /** Selecting one more module appends to the plan what the module's own plan
      lists and the plan so far does not, in the order of its own plan. */
  lemma PlansCompose(byID: Index, selected: seq<string>, x: string)
    requires Resolution(selected + [x], byID).Ok?
    ensures Resolution(selected, byID).Ok? && Resolution([x], byID).Ok?
    ensures var before := Resolution(selected, byID).value.order;
            var own := Resolution([x], byID).value.order;
            Resolution(selected + [x], byID).value.order == before + Without(own, ToSet(before))
  {
    SubselectionResolves(byID, selected + [x], selected);
    SubselectionResolves(byID, selected + [x], [x]);
    ResolutionIsPlain(byID, selected + [x]);
    ResolutionIsPlain(byID, selected);
    ResolutionIsPlain(byID, [x]);
    SearchCompose(byID, selected, x);
  }

  // ---------------------------------------------------------------------
  // One module and its dependencies
  // ---------------------------------------------------------------------

  /** The same search while `x` is on the stack and never met. */
  ghost predicate Beside(x: string, r: Outcome, q: Outcome) {
    match r
    case Failed(e) => q == Failed(ResolveError(e.code, [x] + e.path))
    case Done(t) => q.Done? && OnStack(x, t, q.progress)
  }

  ghost predicate OnStack(x: string, t: Progress, s: Progress) {
    x !in t.colour && s.colour == t.colour[x := Grey] && s.order == t.order
  }

  lemma {:induction false} SearchFromBeside(byID: Index, x: string, t: Progress, s: Progress, id: string, stack: seq<string>)
    requires OnStack(x, t, s) && !Reaches(byID, id, x)
    ensures Beside(x, SearchFrom(byID, {}, t, id, stack), SearchFrom(byID, {}, s, id, [x] + stack))
    decreases byID.Keys - t.colour.Keys, 0
  {
    ReachesItself(byID, id);
    assert [x] + stack + [id] == [x] + (stack + [id]);
    if id in t.colour || !Resolved(byID, id) {
    } else {
      assert id in byID.Keys - t.colour.Keys;
      var ids := DependencyIDs(Head(byID, id));
      forall d | d in ids ensures !Reaches(byID, d, x) {
        assert Edge(byID, id, d);
        if Reaches(byID, d, x) {
          ReachesViaEdge(byID, id, d, x);
        }
      }
      assert Enter(t, id).colour[x := Grey] == Enter(s, id).colour;
      SearchAllBeside(byID, x, Enter(t, id), Enter(s, id), ids, stack + [id]);
    }
  }

  lemma {:induction false} SearchAllBeside(byID: Index, x: string, t: Progress, s: Progress, ids: seq<string>, stack: seq<string>)
    requires OnStack(x, t, s) && forall d :: d in ids ==> !Reaches(byID, d, x)
    ensures Beside(x, SearchAll(byID, {}, t, ids, stack), SearchAll(byID, {}, s, ids, [x] + stack))
    decreases byID.Keys - t.colour.Keys, |ids|
  {
    if ids == [] {
    } else {
      var front, last := ids[..|ids| - 1], ids[|ids| - 1];
      SearchAllBeside(byID, x, t, s, front, stack);
      var r, q := SearchAll(byID, {}, t, front, stack), SearchAll(byID, {}, s, front, [x] + stack);
      if r.Done? {
        SearchFromBeside(byID, x, r.progress, q.progress, last, stack);
      }
    }
  }

  /** The IDs that the first version of `x` depends on, in its order. */
  function DependenciesOf(byID: Index, x: string): seq<string>
    requires x in byID && byID[x].versions != []
  {
    seq(|byID[x].versions[0].dependencies|,
        k requires 0 <= k < |byID[x].versions[0].dependencies| => byID[x].versions[0].dependencies[k].moduleID)
  }

  /** A module that its dependencies do not lead back to is searched as they are,
      in their declared order, and listed after them; a defect below it is
      reported behind its name. */
  lemma SearchOfOne(byID: Index, x: string)
    requires x in byID && byID[x].versions != [] && !InClosure(byID, DependenciesOf(byID, x), x)
    ensures match Plain(byID, DependenciesOf(byID, x))
            case Done(t) => Plain(byID, [x]).Done? && Plain(byID, [x]).progress.order == t.order + [x]
            case Failed(e) => Plain(byID, [x]) == Failed(ResolveError(e.code, [x] + e.path))
  {
    var ids := DependenciesOf(byID, x);
    assert ids == DependencyIDs(Head(byID, x));
    SearchAllBeside(byID, x, START, Enter(START, x), ids, []);
    assert [x] + [] == [] + [x];
    PlainOfOne(byID, x);
  }

  /** The plan of one module is the plan of its dependencies, in their declared
      order, and then the module. */
  lemma PlanOfOne(byID: Index, x: string)
    requires Resolution([x], byID).Ok?
    ensures x in byID && byID[x].versions != [] && Resolution(DependenciesOf(byID, x), byID).Ok?
    ensures Resolution([x], byID).value.order == Resolution(DependenciesOf(byID, x), byID).value.order + [x]
  {
    ResolvesExactly(byID, [x]);
    ReachesItself(byID, x);
    assert InClosure(byID, [x], x);
    var ids := DependenciesOf(byID, x);
    forall d, y | d in ids && Reaches(byID, d, y) ensures Reaches(byID, x, y) {
      assert Edge(byID, x, d);
      ReachesViaEdge(byID, x, d, y);
    }
    assert forall y :: InClosure(byID, ids, y) ==> InClosure(byID, [x], y) by {
      assert x in [x];
    }
    ResolvesExactly(byID, ids);
    if InClosure(byID, ids, x) {
      var d :| d in ids && Reaches(byID, d, x);
      assert Edge(byID, x, d);
      RingThrough(byID, x, d);
    }
    SearchOfOne(byID, x);
    ResolutionIsPlain(byID, [x]);
    ResolutionIsPlain(byID, ids);
  }

  lemma RingThrough(byID: Index, x: string, d: string)
    requires Edge(byID, x, d) && Reaches(byID, d, x)
    ensures !Acyclic(byID, [x])
  {
    var p :| WalkBetween(byID, p, d, x);
    var q := [x] + p;
    forall i, j | 0 <= i < j < |q| && j == i + 1 ensures Edge(byID, q[i], q[j]) {
      if i > 0 {
        assert q[i] == p[i - 1] && q[j] == p[j - 1];
      }
    }
    assert Cyclic(byID, q);
    ReachesItself(byID, x);
    assert x in [x] && InClosure(byID, [x], q[0]);
  }

  /** A defect below a module that is not part of a ring is reported behind the
      module's name; a gap at the module itself is reported as such. */
  lemma DefectsDescend(byID: Index, x: string)
    ensures x !in byID ==> Resolution([x], byID) == Err(ResolveError(NotInCatalog, [x]))
    ensures x in byID && byID[x].versions == [] ==> Resolution([x], byID) == Err(ResolveError(NoVersion, [x]))
    ensures x in byID && byID[x].versions != [] && !InClosure(byID, DependenciesOf(byID, x), x) ==>
              var below := Resolution(DependenciesOf(byID, x), byID);
              below.Err? && below.error.code != Conflict ==>
                Resolution([x], byID) == Err(ResolveError(below.error.code, [x] + below.error.path))
  {
    ResolutionIsPlain(byID, [x]);
    PlainOfOne(byID, x);
    assert [] + [x] == [x];
    if x in byID && byID[x].versions != [] && !InClosure(byID, DependenciesOf(byID, x), x) {
      SearchOfOne(byID, x);
      ResolutionIsPlain(byID, DependenciesOf(byID, x));
    }
  }
}
