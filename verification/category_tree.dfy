/** The category tree of the policy catalog: policies are inserted one after
    the other into a tree of heap nodes that grows in place. */
module CategoryTrees {
  import opened Wrappers

  datatype Policy = Policy(id: string, title: string, category: seq<string>, scope: string)

  // ---------------------------------------------------------------------
  // Trees as values
  // ---------------------------------------------------------------------

  datatype Tree = Node(name: string, path: seq<string>, policies: seq<Policy>, children: seq<Tree>)

  function FindChild(children: seq<Tree>, name: string): (r: Option<nat>)
    ensures r.None? <==> forall i :: 0 <= i < |children| ==> children[i].name != name
    ensures r.Some? ==> r.value < |children| && children[r.value].name == name
                        && forall i :: 0 <= i < r.value ==> children[i].name != name
  {
    if children == [] then None
    else
      var last := |children| - 1;
      match FindChild(children[..last], name)
      case Some(i) => Some(i)
      case None => if children[last].name == name then Some(last) else None
  }

  function NewChild(t: Tree, name: string): Tree {
    Node(name, t.path + [name], [], [])
  }

  function Insert(t: Tree, p: Policy, path: seq<string>): (u: Tree)
    ensures u.name == t.name && u.path == t.path
    decreases |path|
  {
    if path == [] then t.(policies := t.policies + [p])
    else
      match FindChild(t.children, path[0])
      case Some(i) => t.(children := t.children[i := Insert(t.children[i], p, path[1..])])
      case None => t.(children := t.children + [Insert(NewChild(t, path[0]), p, path[1..])])
  }

  const ROOT := Node("Policies", [], [], [])

  function Build(policies: seq<Policy>): Tree {
    if policies == [] then ROOT
    else
      var last := |policies| - 1;
      Insert(Build(policies[..last]), policies[last], policies[last].category)
  }

  /** The node reached by following labels from `t`. */
  function Lookup(t: Tree, c: seq<string>): Option<Tree>
    decreases |c|
  {
    if c == [] then Some(t)
    else
      match FindChild(t.children, c[0])
      case Some(i) => Lookup(t.children[i], c[1..])
      case None => None
  }

  function PoliciesAt(t: Tree, c: seq<string>): seq<Policy> {
    match Lookup(t, c) case Some(n) => n.policies case None => []
  }

  function LabelsAt(t: Tree, c: seq<string>): seq<string> {
    match Lookup(t, c) case Some(n) => Labels(n.children) case None => []
  }

  function Labels(children: seq<Tree>): (r: seq<string>)
    ensures |r| == |children| && forall i :: 0 <= i < |r| ==> r[i] == children[i].name
  {
    seq(|children|, i requires 0 <= i < |children| => children[i].name)
  }

  /** How often a policy occurs in a subtree, and how many policies there are. */
  function Count(t: Tree, q: Policy): nat {
    multiset(t.policies)[q] + CountIn(t.children, q)
  }

  function CountIn(ts: seq<Tree>, q: Policy): nat {
    if ts == [] then 0 else CountIn(ts[..|ts| - 1], q) + Count(ts[|ts| - 1], q)
  }

  function Size(t: Tree): nat {
    |t.policies| + SizeOf(t.children)
  }

  function SizeOf(ts: seq<Tree>): nat {
    if ts == [] then 0 else SizeOf(ts[..|ts| - 1]) + Size(ts[|ts| - 1])
  }

  /** Sibling labels differ, paths follow labels, and no child is empty. */
  ghost predicate WellFormed(t: Tree) {
    && (forall i, j :: 0 <= i < j < |t.children| ==> t.children[i].name != t.children[j].name)
    && (forall i :: 0 <= i < |t.children| ==>
          && t.children[i].path == t.path + [t.children[i].name]
          && Size(t.children[i]) > 0
          && WellFormed(t.children[i]))
  }

  // ---------------------------------------------------------------------
  // What one insertion does
  // ---------------------------------------------------------------------

  lemma FindAfterUpdate(children: seq<Tree>, i: nat, x: Tree, name: string)
    requires i < |children| && x.name == children[i].name
    ensures FindChild(children[i := x], name) == FindChild(children, name)
  {
    var r, q := FindChild(children, name), FindChild(children[i := x], name);
    assert forall j :: 0 <= j < |children| ==> children[i := x][j].name == children[j].name;
    assert r.Some? && q.Some? ==> !(r.value < q.value) && !(q.value < r.value);
  }

  lemma FindAfterAppend(children: seq<Tree>, x: Tree, name: string)
    ensures FindChild(children + [x], name) ==
              if FindChild(children, name).Some? then FindChild(children, name)
              else if x.name == name then Some(|children|) else None
  {
  }

  /** The child of `t` that an insertion under `name` descends into. */
  function Target(t: Tree, name: string): (child: Tree)
    ensures child.name == name
  {
    match FindChild(t.children, name) case Some(i) => t.children[i] case None => NewChild(t, name)
  }

  lemma LookupStep(t: Tree, p: Policy, path: seq<string>, c: seq<string>)
    requires path != [] && c != []
    ensures Lookup(Insert(t, p, path), c) ==
              if c[0] == path[0] then Lookup(Insert(Target(t, path[0]), p, path[1..]), c[1..]) else Lookup(t, c)
  {
    var x := Insert(Target(t, path[0]), p, path[1..]);
    match FindChild(t.children, path[0])
    case Some(i) => FindAfterUpdate(t.children, i, x, c[0]);
    case None => FindAfterAppend(t.children, x, c[0]);
  }

  lemma LabelsAfterInsert(t: Tree, p: Policy, path: seq<string>)
    requires path != []
    ensures Labels(Insert(t, p, path).children) ==
              Labels(t.children) + if path[0] in Labels(t.children) then [] else [path[0]]
  {
  }

  lemma {:induction false} PoliciesAfterInsert(t: Tree, p: Policy, path: seq<string>, c: seq<string>)
    ensures PoliciesAt(Insert(t, p, path), c) == PoliciesAt(t, c) + if c == path then [p] else []
    decreases |path|
  {
    if path == [] || c == [] {
    } else {
      LookupStep(t, p, path, c);
      assert c == [c[0]] + c[1..] && path == [path[0]] + path[1..];
      if c[0] == path[0] {
        PoliciesAfterInsert(Target(t, path[0]), p, path[1..], c[1..]);
        LookupTarget(t, c);
      }
    }
  }

  lemma {:induction false} LabelsAtAfterInsert(t: Tree, p: Policy, path: seq<string>, c: seq<string>)
    ensures LabelsAt(Insert(t, p, path), c) == LabelsAt(t, c) +
              if c < path && path[|c|] !in LabelsAt(t, c) then [path[|c|]] else []
    decreases |path|
  {
    if path != [] && c == [] {
      LabelsAfterInsert(t, p, path);
    } else if path != [] {
      LookupStep(t, p, path, c);
      assert c == [c[0]] + c[1..] && path == [path[0]] + path[1..];
      if c[0] == path[0] {
        LabelsAtAfterInsert(Target(t, path[0]), p, path[1..], c[1..]);
        LookupTarget(t, c);
      }
    }
  }

  /** Looking up below `t` goes through the target child; a fresh target has
      nothing, like the missing child it replaces. */
  lemma LookupTarget(t: Tree, c: seq<string>)
    requires c != []
    ensures PoliciesAt(Target(t, c[0]), c[1..]) == PoliciesAt(t, c)
    ensures LabelsAt(Target(t, c[0]), c[1..]) == LabelsAt(t, c)
  {
  }

  lemma {:induction false} CountsAfterUpdate(ts: seq<Tree>, i: nat, x: Tree, q: Policy)
    requires i < |ts|
    ensures CountIn(ts[i := x], q) + Count(ts[i], q) == CountIn(ts, q) + Count(x, q)
    ensures SizeOf(ts[i := x]) + Size(ts[i]) == SizeOf(ts) + Size(x)
  {
    var last := |ts| - 1;
    if i == last {
      assert ts[i := x][..last] == ts[..last];
    } else {
      CountsAfterUpdate(ts[..last], i, x, q);
      assert ts[i := x][..last] == ts[..last][i := x];
    }
  }

  /** Nothing is lost, duplicated or altered. */
  lemma {:induction false} InsertCounts(t: Tree, p: Policy, path: seq<string>, q: Policy)
    ensures Count(Insert(t, p, path), q) == Count(t, q) + if p == q then 1 else 0
    ensures Size(Insert(t, p, path)) == Size(t) + 1
    decreases |path|
  {
    if path == [] {
    } else {
      var child := Target(t, path[0]);
      InsertCounts(child, p, path[1..], q);
      var x := Insert(child, p, path[1..]);
      match FindChild(t.children, path[0])
      case Some(i) => CountsAfterUpdate(t.children, i, x, q);
      case None => assert (t.children + [x])[..|t.children|] == t.children;
    }
  }

  /** A well-formed child replaces its namesake, or joins under a new label. */
  lemma JoinWellFormed(t: Tree, x: Tree)
    requires WellFormed(t) && WellFormed(x) && x.path == t.path + [x.name] && Size(x) > 0
    ensures match FindChild(t.children, x.name)
            case Some(i) => WellFormed(t.(children := t.children[i := x]))
            case None => WellFormed(t.(children := t.children + [x]))
  {
  }

  lemma {:induction false} InsertWellFormed(t: Tree, p: Policy, path: seq<string>)
    requires WellFormed(t)
    ensures WellFormed(Insert(t, p, path))
    decreases |path|
  {
    if path == [] {
    } else {
      var child := Target(t, path[0]);
      assert WellFormed(child) && child.path == t.path + [path[0]];
      InsertWellFormed(child, p, path[1..]);
      InsertCounts(child, p, path[1..], p);
      JoinWellFormed(t, Insert(child, p, path[1..]));
    }
  }

  // ---------------------------------------------------------------------
  // What the finished tree holds
  // ---------------------------------------------------------------------

  /** The policies of category `c`, in list order. */
  function Under(policies: seq<Policy>, c: seq<string>): seq<Policy> {
    if policies == [] then []
    else
      var last := |policies| - 1;
      Under(policies[..last], c) + if policies[last].category == c then [policies[last]] else []
  }

  /** The labels that follow `c` in the categories, in order of first appearance. */
  function LabelsUnder(policies: seq<Policy>, c: seq<string>): seq<string> {
    if policies == [] then []
    else
      var last := |policies| - 1;
      var before, category := LabelsUnder(policies[..last], c), policies[last].category;
      before + if c < category && category[|c|] !in before then [category[|c|]] else []
  }

  /** For any list of policies: each node holds exactly the policies of its
      category in list order, its children appear in order of first use, the
      tree is well formed and holds the list's policies and no others. */
  lemma {:induction false} BuildIsFaithful(policies: seq<Policy>, c: seq<string>)
    ensures PoliciesAt(Build(policies), c) == Under(policies, c)
    ensures LabelsAt(Build(policies), c) == LabelsUnder(policies, c)
    ensures WellFormed(Build(policies))
    ensures forall q :: Count(Build(policies), q) == multiset(policies)[q]
    ensures Build(policies).name == "Policies" && Build(policies).path == []
  {
    if policies == [] {
    } else {
      var last := |policies| - 1;
      var t, p := Build(policies[..last]), policies[last];
      BuildIsFaithful(policies[..last], c);
      PoliciesAfterInsert(t, p, p.category, c);
      LabelsAtAfterInsert(t, p, p.category, c);
      InsertWellFormed(t, p, p.category);
    }
    BuildCounts(policies);
  }

  lemma {:induction false} BuildCounts(policies: seq<Policy>)
    ensures forall q :: Count(Build(policies), q) == multiset(policies)[q]
  {
    if policies == [] {
    } else {
      var last := |policies| - 1;
      var p := policies[last];
      BuildCounts(policies[..last]);
      assert policies == policies[..last] + [p];
      forall q ensures Count(Build(policies), q) == multiset(policies)[q] {
        InsertCounts(Build(policies[..last]), p, p.category, q);
      }
    }
  }

  /** A node reached by `c` carries the path `c` below its root, and only the
      root can be empty. */
  lemma {:induction false} PathsFollowLabels(t: Tree, c: seq<string>)
    requires WellFormed(t) && Lookup(t, c).Some?
    ensures Lookup(t, c).value.path == t.path + c
    ensures c != [] ==> Size(Lookup(t, c).value) > 0
    decreases |c|
  {
    if c == [] {
    } else {
      var i := FindChild(t.children, c[0]).value;
      PathsFollowLabels(t.children[i], c[1..]);
      assert c == [c[0]] + c[1..];
    }
  }

  // ---------------------------------------------------------------------
  // The tree on the heap
  // ---------------------------------------------------------------------

  class CategoryTree {
    const name: string
    const path: seq<string>
    var children: seq<CategoryTree>
    var policies: seq<Policy>
    ghost var repr: set<CategoryTree>
    ghost var model: Tree

    ghost predicate Valid()
      reads this, repr
      decreases repr
      ensures Valid() ==> this in repr
    {
      && this in repr
      && model.name == name && model.path == path && model.policies == policies
      && |model.children| == |children|
      && (forall i :: 0 <= i < |children| ==>
            && children[i] in repr && children[i].repr <= repr && this !in children[i].repr
            && children[i].Valid() && children[i].model == model.children[i])
      && (forall i, j :: 0 <= i < j < |children| ==> children[i].repr !! children[j].repr)
    }

    constructor (name: string, path: seq<string>)
      ensures this.name == name && this.path == path && repr == {this}
      ensures Valid() && model == Node(name, path, [], [])
    {
      this.name, this.path, children, policies := name, path, [], [];
      repr, model := {this}, Node(name, path, [], []);
    }

    /** The scan over the children for a label. */
    method ChildLabelled(head: string) returns (r: Option<nat>)
      requires Valid()
      ensures r == FindChild(model.children, head)
    {
      for i := 0 to |children|
        invariant forall j :: 0 <= j < i ==> model.children[j].name != head
      {
        if children[i].name == head {
          return Some(i);
        }
      }
      return None;
    }

    method InsertPolicy(p: Policy, rest: seq<string>)
      requires Valid()
      modifies repr
      ensures Valid() && fresh(repr - old(repr)) && old(repr) <= repr
      ensures model == Insert(old(model), p, rest)
      decreases |rest|, 0
    {
      if rest == [] {
        policies := policies + [p];
        model := model.(policies := policies);
        return;
      }
      var found := ChildLabelled(rest[0]);
      match found
      case Some(i) => InsertBelow(i, p, rest[1..]);
      case None => InsertNew(rest[0], p, rest[1..]);
    }

    method InsertBelow(i: nat, p: Policy, rest: seq<string>)
      requires Valid() && i < |children|
      modifies repr
      ensures Valid() && fresh(repr - old(repr)) && old(repr) <= repr
      ensures model == old(model).(children := old(model).children[i := Insert(old(model).children[i], p, rest)])
      decreases |rest|, 1
    {
      children[i].InsertPolicy(p, rest);
      assert forall j :: 0 <= j < |children| && j != i ==> children[j].repr == old(children[j].repr) && children[j].Valid();
      repr := repr + children[i].repr;
      model := model.(children := model.children[i := children[i].model]);
    }

    method InsertNew(head: string, p: Policy, rest: seq<string>)
      requires Valid()
      modifies repr
      ensures Valid() && fresh(repr - old(repr)) && old(repr) <= repr
      ensures model == old(model).(children := old(model).children + [Insert(NewChild(old(model), head), p, rest)])
      decreases |rest|, 1
    {
      var child := new CategoryTree(head, path + [head]);
      child.InsertPolicy(p, rest);
      assert forall j :: 0 <= j < |children| ==> children[j].repr == old(children[j].repr) && children[j].Valid();
      children := children + [child];
      repr := repr + child.repr;
      model := model.(children := model.children + [child.model]);
    }
  }

  /** The loop over the catalog, for any list of policies. */
  method BuildTree(catalog: seq<Policy>) returns (root: CategoryTree)
    ensures fresh(root.repr) && root.Valid()
    ensures root.model == Build(catalog)
  {
    root := new CategoryTree("Policies", []);
    for i := 0 to |catalog|
      invariant fresh(root.repr) && root.Valid()
      invariant root.model == Build(catalog[..i])
    {
      assert catalog[..i + 1][..i] == catalog[..i];
      root.InsertPolicy(catalog[i], catalog[i].category);
    }
    assert catalog[..|catalog|] == catalog;
  }
}
