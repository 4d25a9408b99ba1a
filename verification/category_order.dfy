/** The sidebar navigator walks the category tree: when does it meet the
    policies in the order of the list they came from? */
module CategoryOrder {
  import opened Wrappers
  import opened CategoryTrees

  /** The entries for a node: its children from left to right, and then the
      "(direct policies)" filed at the node itself. */
  function Traverse(t: Tree): seq<Policy> {
    TraverseAll(t.children) + t.policies
  }

  function TraverseAll(ts: seq<Tree>): seq<Policy> {
    if ts == [] then [] else TraverseAll(ts[..|ts| - 1]) + Traverse(ts[|ts| - 1])
  }

  /** The whole navigator: it has entries for the root's children only, so
      policies without a category do not appear. */
  function Navigate(root: Tree): seq<Policy> {
    TraverseAll(root.children)
  }

  /** Every policy sits at the node of its category. */
  ghost predicate Placed(t: Tree) {
    && (forall i :: 0 <= i < |t.policies| ==> t.policies[i].category == t.path)
    && (forall i :: 0 <= i < |t.children| ==> Placed(t.children[i]))
  }

  lemma {:induction false} InsertPlaced(t: Tree, p: Policy, path: seq<string>)
    requires Placed(t) && WellFormed(t) && p.category == t.path + path
    ensures Placed(Insert(t, p, path))
    decreases |path|
  {
    if path != [] {
      var child := Target(t, path[0]);
      assert Placed(child) && WellFormed(child) && child.path == t.path + [path[0]];
      assert t.path + path == child.path + path[1..];
      InsertPlaced(child, p, path[1..]);
    } else {
      assert t.path + path == t.path;
    }
  }

  lemma {:induction false} TraverseLength(t: Tree)
    ensures |Traverse(t)| == Size(t)
  {
    TraverseAllLength(t.children);
  }

  lemma {:induction false} TraverseAllLength(ts: seq<Tree>)
    ensures |TraverseAll(ts)| == SizeOf(ts)
  {
    if ts == [] {
    } else {
      TraverseAllLength(ts[..|ts| - 1]);
      TraverseLength(ts[|ts| - 1]);
    }
  }

  /** The last policy that a walk meets. */
  function Last(t: Tree): Policy
    requires Traverse(t) != []
  {
    Traverse(t)[|Traverse(t)| - 1]
  }

  lemma LastIsRightmost(t: Tree)
    requires WellFormed(t) && t.children != [] && t.policies == []
    ensures var right := t.children[|t.children| - 1];
            Traverse(t) != [] && Traverse(right) != [] && Last(t) == Last(right)
  {
    var right := t.children[|t.children| - 1];
    TraverseLength(right);
    assert Traverse(t) == TraverseAll(t.children[..|t.children| - 1]) + Traverse(right);
  }

  /** Categories below a node extend its path, and a node's own policies come
      after those of its children. */
  lemma {:induction false} LastExtendsPath(t: Tree)
    requires WellFormed(t) && Placed(t) && Traverse(t) != []
    ensures t.path <= Last(t).category
    ensures t.policies != [] ==> Last(t).category == t.path
    ensures t.policies == [] ==>
              t.children != [] && t.path + [t.children[|t.children| - 1].name] <= Last(t).category
  {
    if t.policies != [] {
      assert Last(t) == t.policies[|t.policies| - 1];
    } else {
      LastIsRightmost(t);
      LastExtendsPath(t.children[|t.children| - 1]);
    }
  }

  /** An insertion under `path` only touches the right edge of the tree: no node
      on the way has policies of its own or a later sibling. */
  predicate AtRightEdge(t: Tree, path: seq<string>)
    decreases |path|
  {
    path == [] ||
    (t.policies == [] &&
     match FindChild(t.children, path[0])
     case Some(i) => i == |t.children| - 1 && AtRightEdge(t.children[i], path[1..])
     case None => true)
  }

  lemma TraverseAllReplaced(ts: seq<Tree>, x: Tree)
    requires ts != []
    ensures TraverseAll(ts[|ts| - 1 := x]) == TraverseAll(ts[..|ts| - 1]) + Traverse(x)
  {
  }

  lemma {:induction false} RightEdgeAppends(t: Tree, p: Policy, path: seq<string>)
    requires AtRightEdge(t, path)
    ensures Traverse(Insert(t, p, path)) == Traverse(t) + [p]
    decreases |path|
  {
    if path == [] {
    } else {
      RightEdgeAppends(Target(t, path[0]), p, path[1..]);
      var x := Insert(Target(t, path[0]), p, path[1..]);
      match FindChild(t.children, path[0])
      case Some(i) => TraverseAllReplaced(t.children, x);
      case None => assert (t.children + [x])[..|t.children|] == t.children;
    }
  }

  /** Elsewhere the walk ends with a policy of another category. */
  lemma {:induction false} ElsewhereDoesNot(t: Tree, p: Policy, path: seq<string>)
    requires WellFormed(t) && Placed(t) && p.category == t.path + path && !AtRightEdge(t, path)
    ensures var u := Insert(t, p, path);
            Traverse(u) != [] && Last(u).category != p.category
    decreases |path|
  {
    var u := Insert(t, p, path);
    InsertWellFormed(t, p, path);
    InsertPlaced(t, p, path);
    if t.policies != [] {
      assert u.policies == t.policies && Traverse(u) != [];
      LastExtendsPath(u);
      assert |p.category| > |t.path|;
    } else {
      LastIsRightmost(u);
      LastExtendsPath(u);
      var child := Target(t, path[0]);
      assert t.path + path == child.path + path[1..];
      var i := FindChild(t.children, path[0]).value;
      var last := |t.children| - 1;
      if i == last {
        ElsewhereDoesNot(child, p, path[1..]);
      } else {
        assert u.children[last] == t.children[last] && t.children[i].name == path[0];
        assert (t.path + path)[|t.path|] == path[0];
        assert (t.path + [t.children[last].name])[|t.path|] == t.children[last].name;
      }
    }
  }

  // ---------------------------------------------------------------------
  // The condition on the list
  // ---------------------------------------------------------------------

  predicate HeadingUsed(policies: seq<Policy>, e: seq<string>) {
    exists j :: 0 <= j < |policies| && e <= policies[j].category
  }

  /** Some policy is filed at a heading above `c` itself. */
  predicate FiledAbove(front: seq<Policy>, c: seq<string>) {
    exists j :: 0 <= j < |front| && front[j].category < c
  }

  /** A policy of category `c` may come after `front`: it has a category, no
      earlier policy is filed at a heading above it, and every heading of `c`
      that an earlier policy used is still open in the last one. */
  predicate Follows(front: seq<Policy>, c: seq<string>) {
    && c != []
    && !FiledAbove(front, c)
    && (front == [] ||
        var q := front[|front| - 1].category;
        forall n :: 0 <= n <= |c| && HeadingUsed(front, c[..n]) ==> c[..n] <= q)
  }

  /** The list is grouped by heading, each heading's own policies last. */
  predicate Grouped(policies: seq<Policy>) {
    policies == [] ||
    var last := |policies| - 1;
    Grouped(policies[..last]) && Follows(policies[..last], policies[last].category)
  }

  /** The heading `path[..n]` below `t`, if it has a node, is open in the category `q`. */
  predicate OpenAt(t: Tree, path: seq<string>, q: seq<string>, n: nat)
    requires n <= |path|
  {
    Lookup(t, path[..n]).Some? ==> t.path + path[..n] <= q
  }

  /** Every node on the way along `path` is open in the category `q`. */
  ghost predicate AllOpen(t: Tree, path: seq<string>, q: seq<string>)
    decreases |path|
  {
    t.path <= q &&
    (path == [] ||
     match FindChild(t.children, path[0])
     case Some(i) => AllOpen(t.children[i], path[1..], q)
     case None => true)
  }

  lemma {:induction false} AllOpenAt(t: Tree, path: seq<string>, q: seq<string>, n: nat)
    requires WellFormed(t) && AllOpen(t, path, q) && n <= |path|
    ensures OpenAt(t, path, q, n)
    decreases |path|
  {
    if n == 0 {
      assert t.path + path[..n] == t.path;
    } else if FindChild(t.children, path[0]).Some? {
      var child := Target(t, path[0]);
      AllOpenAt(child, path[1..], q, n - 1);
      Shift(t, child, path, q, n - 1);
    }
  }

  lemma {:induction false} ClosedSomewhere(t: Tree, path: seq<string>, q: seq<string>) returns (n: nat)
    requires WellFormed(t) && !AllOpen(t, path, q)
    ensures n <= |path| && !OpenAt(t, path, q, n)
    decreases |path|
  {
    if !(t.path <= q) {
      n := 0;
      assert t.path + path[..n] == t.path;
    } else {
      var child := Target(t, path[0]);
      n := ClosedSomewhere(child, path[1..], q);
      Shift(t, child, path, q, n);
      n := n + 1;
    }
  }

  /** Headings of `path` below the child it enters. */
  lemma Shift(t: Tree, child: Tree, path: seq<string>, q: seq<string>, n: nat)
    requires path != [] && child == Target(t, path[0]) && FindChild(t.children, path[0]).Some?
    requires child.path == t.path + [path[0]] && n < |path|
    ensures OpenAt(t, path, q, n + 1) <==> OpenAt(child, path[1..], q, n)
  {
    assert path[..n + 1][1..] == path[1..][..n];
    assert t.path + path[..n + 1] == child.path + path[1..][..n];
  }

  /** No node strictly above the one at `path` has policies of its own. */
  predicate BareAbove(t: Tree, path: seq<string>)
    decreases |path|
  {
    path == [] ||
    (t.policies == [] &&
     match FindChild(t.children, path[0])
     case Some(i) => BareAbove(t.children[i], path[1..])
     case None => true)
  }

  lemma {:induction false} BareAboveExactly(t: Tree, path: seq<string>)
    ensures BareAbove(t, path) <==> forall n :: 0 <= n < |path| ==> PoliciesAt(t, path[..n]) == []
    decreases |path|
  {
    if path == [] {
    } else {
      assert path[..0] == [];
      match FindChild(t.children, path[0])
      case Some(i) =>
        BareAboveExactly(t.children[i], path[1..]);
        forall n | 0 <= n < |path| - 1 ensures PoliciesAt(t, path[..n + 1]) == PoliciesAt(t.children[i], path[1..][..n]) {
          assert path[..n + 1][1..] == path[1..][..n];
        }
        assert forall n :: 0 < n < |path| ==> PoliciesAt(t, path[..n]) == PoliciesAt(t.children[i], path[1..][..n - 1]);
      case None =>
    }
  }

  lemma {:induction false} RightEdgeIffOpen(t: Tree, path: seq<string>)
    requires WellFormed(t) && Placed(t) && Traverse(t) != []
    ensures AtRightEdge(t, path) <==> BareAbove(t, path) && AllOpen(t, path, Last(t).category)
    decreases |path|
  {
    LastExtendsPath(t);
    if path != [] && t.policies == [] {
      var last := |t.children| - 1;
      assert (t.path + [t.children[last].name])[|t.path|] == t.children[last].name;
      assert (t.path + [path[0]])[|t.path|] == path[0];
      if FindChild(t.children, path[0]) == Some(last) {
        LastIsRightmost(t);
        LastExtendsPath(t.children[last]);
        RightEdgeIffOpen(t.children[last], path[1..]);
      }
    }
  }

  lemma {:induction false} NodesAfterInsert(t: Tree, p: Policy, path: seq<string>, e: seq<string>)
    ensures Lookup(Insert(t, p, path), e).Some? <==> Lookup(t, e).Some? || e <= path
    decreases |path|
  {
    if path == [] || e == [] {
    } else {
      LookupStep(t, p, path, e);
      if e[0] == path[0] {
        NodesAfterInsert(Target(t, path[0]), p, path[1..], e[1..]);
        assert e == [e[0]] + e[1..] && path == [path[0]] + path[1..];
        NodesBelowTarget(t, e);
      }
    }
  }

  lemma NodesBelowTarget(t: Tree, e: seq<string>)
    requires e != []
    ensures Lookup(Target(t, e[0]), e[1..]).Some? <==> Lookup(t, e).Some? || e[1..] == []
  {
  }

  /** A heading has a node exactly when some policy is filed at or below it. */
  lemma {:induction false} NodesAreHeadings(policies: seq<Policy>, e: seq<string>)
    ensures Lookup(Build(policies), e).Some? <==> e == [] || HeadingUsed(policies, e)
  {
    if policies == [] {
    } else {
      var last := |policies| - 1;
      NodesAreHeadings(policies[..last], e);
      NodesAfterInsert(Build(policies[..last]), policies[last], policies[last].category, e);
      assert forall j :: 0 <= j < last ==> policies[..last][j] == policies[j];
    }
  }

  lemma {:induction false} BuildPlaced(policies: seq<Policy>)
    ensures Placed(Build(policies)) && WellFormed(Build(policies)) && Build(policies).path == []
  {
    if policies == [] {
    } else {
      var last := |policies| - 1;
      BuildPlaced(policies[..last]);
      InsertPlaced(Build(policies[..last]), policies[last], policies[last].category);
      InsertWellFormed(Build(policies[..last]), policies[last], policies[last].category);
    }
  }

  /** The root as the navigator treats it. */
  function Bare(t: Tree): Tree {
    t.(policies := [])
  }

  lemma OpenIffHeadingOpen(front: seq<Policy>, c: seq<string>, q: seq<string>, n: nat)
    requires n <= |c|
    ensures OpenAt(Bare(Build(front)), c, q, n) <==> (n == 0 || HeadingUsed(front, c[..n]) ==> c[..n] <= q)
  {
    BuildPlaced(front);
    NodesAreHeadings(front, c[..n]);
    assert [] + c[..n] == c[..n];
  }

  lemma {:induction false} UnderExactly(policies: seq<Policy>, c: seq<string>)
    ensures Under(policies, c) == [] <==> forall j :: 0 <= j < |policies| ==> policies[j].category != c
  {
    if policies == [] {
    } else {
      UnderExactly(policies[..|policies| - 1], c);
      assert forall j :: 0 <= j < |policies| - 1 ==> policies[..|policies| - 1][j] == policies[j];
    }
  }

  lemma BareIffNothingFiledAbove(front: seq<Policy>, c: seq<string>)
    requires forall j :: 0 <= j < |front| ==> front[j].category != []
    ensures BareAbove(Bare(Build(front)), c) <==> !FiledAbove(front, c)
  {
    var t := Bare(Build(front));
    BareAboveExactly(t, c);
    forall n | 0 <= n < |c|
      ensures PoliciesAt(t, c[..n]) == [] <==> forall j :: 0 <= j < |front| ==> front[j].category != c[..n]
    {
      BuildIsFaithful(front, c[..n]);
      UnderExactly(front, c[..n]);
    }
    if j :| 0 <= j < |front| && front[j].category < c {
      assert c[..|front[j].category|] == front[j].category;
    }
    if n :| 0 <= n < |c| && PoliciesAt(t, c[..n]) != [] {
      var j :| 0 <= j < |front| && front[j].category == c[..n];
      assert FiledAbove(front, c);
    }
  }

  lemma RightEdgeIffListFollows(front: seq<Policy>, c: seq<string>)
    requires Navigate(Build(front)) == front && c != []
    ensures AtRightEdge(Bare(Build(front)), c) <==> Follows(front, c)
  {
    var t := Bare(Build(front));
    BuildPlaced(front);
    assert Traverse(t) == front;
    NavigatorNeedsCategories(front);
    BareIffNothingFiledAbove(front, c);
    if front == [] {
      assert t.children == [];
    } else {
      var q := Last(t).category;
      RightEdgeIffOpen(t, c);
      if AllOpen(t, c, q) {
        forall n | 0 <= n <= |c| && HeadingUsed(front, c[..n]) ensures c[..n] <= q {
          AllOpenAt(t, c, q, n);
          OpenIffHeadingOpen(front, c, q, n);
        }
      } else {
        var n := ClosedSomewhere(t, c, q);
        OpenIffHeadingOpen(front, c, q, n);
        assert !(c[..n] <= q) && HeadingUsed(front, c[..n]);
      }
    }
  }

  // ---------------------------------------------------------------------
  // What the navigator shows
  // ---------------------------------------------------------------------

  lemma {:induction false} TraverseCounts(t: Tree, q: Policy)
    ensures multiset(Traverse(t))[q] == Count(t, q)
  {
    TraverseAllCounts(t.children, q);
  }

  lemma {:induction false} TraverseAllCounts(ts: seq<Tree>, q: Policy)
    ensures multiset(TraverseAll(ts))[q] == CountIn(ts, q)
  {
    if ts == [] {
    } else {
      TraverseAllCounts(ts[..|ts| - 1], q);
      TraverseCounts(ts[|ts| - 1], q);
    }
  }

  lemma {:induction false} UnderCounts(policies: seq<Policy>, c: seq<string>, q: Policy)
    ensures multiset(Under(policies, c))[q] == if q.category == c then multiset(policies)[q] else 0
  {
    if policies == [] {
    } else {
      UnderCounts(policies[..|policies| - 1], c, q);
      assert policies == policies[..|policies| - 1] + [policies[|policies| - 1]];
    }
  }

  /** The navigator shows each policy that has a category as often as it is
      listed, and none of the others. */
  lemma NavigatorShowsFiled(policies: seq<Policy>, q: Policy)
    ensures multiset(Navigate(Build(policies)))[q] == if q.category == [] then 0 else multiset(policies)[q]
  {
    BuildIsFaithful(policies, []);
    TraverseAllCounts(Build(policies).children, q);
    UnderCounts(policies, [], q);
    assert Build(policies).policies == Under(policies, []);
  }

  lemma NavigatorNeedsCategories(policies: seq<Policy>)
    requires Navigate(Build(policies)) == policies
    ensures forall j :: 0 <= j < |policies| ==> policies[j].category != []
  {
    forall j | 0 <= j < |policies| ensures policies[j].category != [] {
      NavigatorShowsFiled(policies, policies[j]);
      assert policies[j] in multiset(policies);
    }
  }

  /** The navigator follows the list's order if and only if the list is grouped
      by heading, each heading's own policies last. */
  lemma {:induction false} TraversalMatchesExactly(policies: seq<Policy>)
    ensures Navigate(Build(policies)) == policies <==> Grouped(policies)
  {
    if policies == [] {
    } else {
      var front, p := policies[..|policies| - 1], policies[|policies| - 1];
      assert policies == front + [p];
      TraversalMatchesExactly(front);
      if p.category == [] {
        if Navigate(Build(policies)) == policies {
          NavigatorNeedsCategories(policies);
        }
      } else {
        NavigatorAfterInsert(front, p);
        if Navigate(Build(front)) == front {
          RightEdgeIffListFollows(front, p.category);
        }
      }
    }
  }

  /** One more policy is shown last exactly on the right edge; otherwise the
      navigator ends with a policy of another category. */
  lemma NavigatorAfterInsert(front: seq<Policy>, p: Policy)
    requires p.category != []
    ensures Navigate(Build(front + [p])) == front + [p]
            <==> Navigate(Build(front)) == front && AtRightEdge(Bare(Build(front)), p.category)
  {
    var t := Bare(Build(front));
    assert (front + [p])[..|front|] == front;
    BuildPlaced(front);
    assert t.path + p.category == p.category;
    var u := Insert(t, p, p.category);
    assert Traverse(t) == Navigate(Build(front)) && Traverse(u) == Navigate(Build(front + [p]));
    if AtRightEdge(t, p.category) {
      RightEdgeAppends(t, p, p.category);
      assert (Traverse(t) + [p])[..|Traverse(t)|] == Traverse(t);
    } else {
      ElsewhereDoesNot(t, p, p.category);
    }
  }

  /** The catalog order is lost as soon as a heading is taken up again. */
  lemma TraversalCanDiffer(x: Policy, y: Policy, z: Policy, a: string, b: string)
    requires a != b && x != z
    requires x.category == [a] && y.category == [b] && z.category == [a]
    ensures Navigate(Build([x, y, z])) != [x, y, z]
  {
    var list := [x, y, z];
    assert list[..2] == [x, y];
    TraversalMatchesExactly(list);
    assert [a] <= list[..2][0].category && z.category[..1] == [a] && !([a] <= y.category);
    assert HeadingUsed(list[..2], z.category[..1]);
  }

  /** It is lost, too, when a heading's own policy comes before those filed
      deeper; the other way round it is kept. */
  lemma DirectPoliciesComeLast(x: Policy, y: Policy, a: string, b: string)
    requires x.category == [a] && y.category == [a, b]
    ensures Navigate(Build([x, y])) != [x, y] && Navigate(Build([y, x])) == [y, x]
  {
    TraversalMatchesExactly([x, y]);
    assert [x, y][..1] == [x] && x.category < y.category;
    assert FiledAbove([x], y.category) by { assert [x][0].category < y.category; }
    TraversalMatchesExactly([y, x]);
    assert [y, x][..1] == [y] && [y][..0] == [];
    assert Follows([], y.category);
    assert !FiledAbove([y], x.category) by { assert !([a, b] < [a]); }
    assert Follows([y], x.category) by { assert [a] == [a, b][..1]; }
    assert Grouped([y]);
  }
}
