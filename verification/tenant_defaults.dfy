/** The tenant-wide module defaults: one map under a composite string key, and
    a listing that is sorted in place after an unordered walk over the map. */
module TenantDefaults {
  import opened Wrappers
  import opened Orderings

  datatype TenantDefault = TenantDefault(
    tenantID: string,
    policyURN: string,
    moduleID: string,
    moduleVersion: string,
    setBy: string,
    setAt: string)

  const ZERO := TenantDefault("", "", "", "", "", "")

  type Defaults = map<string, TenantDefault>

  function Key(tenant: string, urn: string): string {
    tenant + "|" + urn
  }

  function AfterSet(m: Defaults, d: TenantDefault): Defaults {
    if d.moduleID == "" then m - {Key(d.tenantID, d.policyURN)} else m[Key(d.tenantID, d.policyURN) := d]
  }

  function AfterClear(m: Defaults, tenant: string, urn: string): Defaults {
    m - {Key(tenant, urn)}
  }

  function Get(m: Defaults, tenant: string, urn: string): TenantDefault {
    if Key(tenant, urn) in m then m[Key(tenant, urn)] else ZERO
  }

  /** Every entry sits under its own key and names a module. */
  predicate Consistent(m: Defaults) {
    forall k :: k in m ==> k == Key(m[k].tenantID, m[k].policyURN) && m[k].moduleID != ""
  }

  lemma StoreStaysConsistent(m: Defaults, d: TenantDefault, tenant: string, urn: string)
    requires Consistent(m)
    ensures Consistent(AfterSet(m, d)) && Consistent(AfterClear(m, tenant, urn))
  {
  }

  // ---------------------------------------------------------------------
  // The composite key
  // ---------------------------------------------------------------------

  /** The bar after `t` falls inside the other tenant's ID. */
  predicate Straddles(t: string, u: string, t': string, u': string) {
    |t| < |t'| && t + "|" <= t' && u == t'[|t| + 1..] + "|" + u'
  }

  /** Two keys are equal exactly when tenant and URN agree, or when one tenant
      ID continues the other one past a bar. */
  lemma KeysCollideExactly(t: string, u: string, t': string, u': string)
    ensures Key(t, u) == Key(t', u') <==> (t == t' && u == u') || Straddles(t, u, t', u') || Straddles(t', u', t, u)
  {
    var k, k' := Key(t, u), Key(t', u');
    assert k[..|t|] == t && k[|t|] == '|' && k[|t| + 1..] == u;
    assert k'[..|t'|] == t' && k'[|t'|] == '|' && k'[|t'| + 1..] == u';
    if |t| < |t'| {
      KeySplits(t, u, t', u');
    } else if |t'| < |t| {
      KeySplits(t', u', t, u);
    } else if k == k' {
      assert t == t' && u == u';
    }
  }

  lemma KeySplits(t: string, u: string, t': string, u': string)
    requires |t| < |t'|
    ensures Key(t, u) == Key(t', u') <==> Straddles(t, u, t', u')
  {
    var k, k' := Key(t, u), Key(t', u');
    assert k[..|t|] == t && k[|t|] == '|' && k[|t| + 1..] == u;
    if k == k' {
      assert k'[..|t| + 1] == t'[..|t| + 1] == t + "|";
      assert u == k'[|t| + 1..] == t'[|t| + 1..] + "|" + u';
    }
    if Straddles(t, u, t', u') {
      assert t' == t + "|" + t'[|t| + 1..];
      assert k == k';
    }
  }

  lemma KeysOfPlainTenants(t: string, u: string, t': string, u': string)
    requires '|' !in t && '|' !in t'
    ensures Key(t, u) == Key(t', u') <==> t == t' && u == u'
  {
    KeysCollideExactly(t, u, t', u');
    BarsOfStraddlers(t, u, t', u');
    BarsOfStraddlers(t', u', t, u);
  }

  lemma BarsOfStraddlers(t: string, u: string, t': string, u': string)
    ensures Straddles(t, u, t', u') ==> '|' in t'
  {
    if Straddles(t, u, t', u') {
      assert (t + "|")[|t|] == '|' == t'[|t|];
    }
  }

  /** For tenants without a bar in their ID the store is a map from tenant and
      URN: a write changes its own pair and no other, and a hit belongs to the
      pair that was asked for. */
  lemma StoreIsTwoKeyMap(m: Defaults, d: TenantDefault, tenant: string, urn: string)
    requires Consistent(m) && '|' !in tenant && '|' !in d.tenantID
    requires forall k :: k in m ==> '|' !in m[k].tenantID
    ensures Get(AfterSet(m, d), tenant, urn) ==
              if tenant != d.tenantID || urn != d.policyURN then Get(m, tenant, urn)
              else if d.moduleID == "" then ZERO else d
    ensures Get(AfterClear(m, d.tenantID, d.policyURN), tenant, urn) ==
              if tenant != d.tenantID || urn != d.policyURN then Get(m, tenant, urn) else ZERO
    ensures Get(m, tenant, urn) != ZERO ==> Get(m, tenant, urn).tenantID == tenant && Get(m, tenant, urn).policyURN == urn
  {
    KeysOfPlainTenants(tenant, urn, d.tenantID, d.policyURN);
    if Key(tenant, urn) in m {
      KeysOfPlainTenants(tenant, urn, m[Key(tenant, urn)].tenantID, m[Key(tenant, urn)].policyURN);
    }
  }

  /** With a bar in an ID, a tenant is answered with another tenant's default. */
  lemma BarsMixTenants(a: string, b: string, c: string, moduleID: string)
    requires moduleID != ""
    ensures var d := TenantDefault(a, b + "|" + c, moduleID, "", "", "");
            Get(AfterSet(map[], d), a + "|" + b, c) == d
  {
    assert Key(a + "|" + b, c) == Key(a, b + "|" + c);
  }

  // ---------------------------------------------------------------------
  // The store and its listing
  // ---------------------------------------------------------------------

  function URN(d: TenantDefault): string { d.policyURN }

  /** `out` lists the defaults of `tenant`, strictly sorted by URN. */
  ghost predicate IsListing(m: Defaults, tenant: string, out: seq<TenantDefault>) {
    && StrictlySorted(out, URN)
    && forall d :: d in out <==> exists k :: k in m && m[k] == d && d.tenantID == tenant
  }

  /** There is only one listing, so the walk order over the map does not show. */
  lemma ListingIsUnique(m: Defaults, tenant: string, out: seq<TenantDefault>, other: seq<TenantDefault>)
    requires IsListing(m, tenant, out) && IsListing(m, tenant, other)
    ensures out == other
  {
    SortedListsAgree(out, other, URN);
  }

  predicate InOrder(x: TenantDefault, y: TenantDefault) {
    !Less(y.policyURN, x.policyURN)
  }

  lemma InOrderIsTransitive(x: TenantDefault, y: TenantDefault, z: TenantDefault)
    requires InOrder(x, y) && InOrder(y, z)
    ensures InOrder(x, z)
  {
    LessIsTotal(x.policyURN, y.policyURN);
    LessIsTotal(y.policyURN, z.policyURN);
    if Less(z.policyURN, x.policyURN) {
      if x.policyURN != y.policyURN {
        LessIsTransitive(z.policyURN, x.policyURN, y.policyURN);
      }
    }
  }

  /** The first `n` entries are in order, apart from position `j`, whose entry
      belongs before all that follow it. */
  ghost predicate SortedExcept(s: seq<TenantDefault>, n: nat, j: nat)
    requires j < n <= |s|
  {
    && (forall p, q :: 0 <= p < q < n && p != j && q != j ==> InOrder(s[p], s[q]))
    && (forall q :: j < q < n ==> InOrder(s[j], s[q]))
  }

  ghost predicate SortedUpTo(s: seq<TenantDefault>, n: nat)
    requires n <= |s|
  {
    forall p, q :: 0 <= p < q < n ==> InOrder(s[p], s[q])
  }

  lemma SwapDown(s: seq<TenantDefault>, n: nat, j: nat)
    requires 0 < j < n <= |s| && SortedExcept(s, n, j) && Less(s[j].policyURN, s[j - 1].policyURN)
    ensures SortedExcept(s[j := s[j - 1]][j - 1 := s[j]], n, j - 1)
    ensures multiset(s[j := s[j - 1]][j - 1 := s[j]]) == multiset(s)
  {
    LessIsStrict(s[j].policyURN, s[j - 1].policyURN);
  }

  lemma SettledAt(s: seq<TenantDefault>, n: nat, j: nat)
    requires j < n <= |s| && SortedExcept(s, n, j) && (j == 0 || InOrder(s[j - 1], s[j]))
    ensures SortedUpTo(s, n)
  {
    forall p, q | 0 <= p < q < n ensures InOrder(s[p], s[q]) {
      if q == j && p < j - 1 {
        InOrderIsTransitive(s[p], s[j - 1], s[j]);
      }
    }
  }

  /** The in-place insertion sort by adjacent swaps. */
  method SortByURN(out: array<TenantDefault>)
    modifies out
    ensures SortedUpTo(out[..], out.Length)
    ensures multiset(out[..]) == multiset(old(out[..]))
  {
    var i := 1;
    while i < out.Length
      invariant 1 <= i && (i <= out.Length || out.Length == 0)
      invariant SortedUpTo(out[..], if i <= out.Length then i else 0)
      invariant multiset(out[..]) == multiset(old(out[..]))
    {
      var j := i;
      while j > 0 && Less(out[j].policyURN, out[j - 1].policyURN)
        invariant j <= i < out.Length
        invariant SortedExcept(out[..], i + 1, j)
        invariant multiset(out[..]) == multiset(old(out[..]))
      {
        SwapDown(out[..], i + 1, j);
        ghost var swapped := out[..][j := out[j - 1]][j - 1 := out[j]];
        out[j], out[j - 1] := out[j - 1], out[j];
        assert out[..] == swapped;
        j := j - 1;
      }
      SettledAt(out[..], i + 1, j);
      i := i + 1;
    }
  }

  class Store {
    var defaults: Defaults

    method TenantDefaultFor(tenant: string, urn: string) returns (d: TenantDefault)
      ensures d == Get(defaults, tenant, urn)
    {
      if Key(tenant, urn) in defaults {
        return defaults[Key(tenant, urn)];
      }
      return ZERO;
    }

    method SetTenantDefault(d: TenantDefault)
      modifies this
      ensures defaults == AfterSet(old(defaults), d)
    {
      if d.moduleID == "" {
        defaults := defaults - {Key(d.tenantID, d.policyURN)};
        return;
      }
      defaults := defaults[Key(d.tenantID, d.policyURN) := d];
    }

    method ClearTenantDefault(tenant: string, urn: string)
      modifies this
      ensures defaults == AfterClear(old(defaults), tenant, urn)
    {
      defaults := defaults - {Key(tenant, urn)};
    }

    /** Collects the tenant's entries in whatever order the map is walked, then
        sorts them. */
    method TenantDefaults(tenant: string) returns (out: array<TenantDefault>)
      requires Consistent(defaults)
      ensures fresh(out) && IsListing(defaults, tenant, out[..])
    {
      var found: seq<TenantDefault> := [];
      var todo := defaults.Keys;
      while todo != {}
        invariant todo <= defaults.Keys
        invariant IsCollection(defaults, defaults.Keys - todo, tenant, found)
        decreases todo
      {
        var k := NextKey(todo);
        CollectionGrows(defaults, defaults.Keys - todo, tenant, found, k);
        todo := todo - {k};
        assert defaults.Keys - todo == defaults.Keys - (todo + {k}) + {k};
        if defaults[k].tenantID == tenant {
          found := found + [defaults[k]];
        }
      }
      assert defaults.Keys - todo == defaults.Keys;
      out := new TenantDefault[|found|](i requires 0 <= i < |found| => found[i]);
      assert out[..] == found;
      SortByURN(out);
      SortedCollectionIsListing(defaults, tenant, found, out[..]);
    }
  }

  /** The entries of `tenant` under the visited keys, each once. */
  ghost predicate IsCollection(m: Defaults, visited: set<string>, tenant: string, found: seq<TenantDefault>) {
    && (forall d :: d in found <==> exists k :: k in visited && k in m && m[k] == d && d.tenantID == tenant)
    && (forall i, j :: 0 <= i < j < |found| ==> found[i].policyURN != found[j].policyURN)
  }

  lemma CollectionGrows(m: Defaults, visited: set<string>, tenant: string, found: seq<TenantDefault>, k: string)
    requires Consistent(m) && IsCollection(m, visited, tenant, found) && k in m && k !in visited
    ensures IsCollection(m, visited + {k}, tenant, if m[k].tenantID == tenant then found + [m[k]] else found)
  {
  }

  lemma SortedCollectionIsListing(m: Defaults, tenant: string, found: seq<TenantDefault>, out: seq<TenantDefault>)
    requires IsCollection(m, m.Keys, tenant, found)
    requires SortedUpTo(out, |out|) && multiset(out) == multiset(found)
    ensures IsListing(m, tenant, out)
  {
    forall d ensures d in out <==> d in found {
      assert d in multiset(out) <==> d in multiset(found);
    }
    DistinctURNsAreKept(found, out);
    forall i, j | 0 <= i < j < |out| ensures Less(URN(out[i]), URN(out[j])) {
      LessIsTotal(URN(out[i]), URN(out[j]));
    }
  }

  lemma DistinctURNsAreKept(found: seq<TenantDefault>, out: seq<TenantDefault>)
    requires multiset(out) == multiset(found)
    requires forall i, j :: 0 <= i < j < |found| ==> found[i].policyURN != found[j].policyURN
    ensures forall i, j :: 0 <= i < j < |out| ==> out[i].policyURN != out[j].policyURN
  {
    forall i, j | 0 <= i < j < |out| ensures out[i].policyURN != out[j].policyURN {
      assert out[i] in multiset(found) && out[j] in multiset(found);
      if out[i] == out[j] {
        TwiceInSequence(out, i, j);
        OnceInDistinct(found, out[i]);
      }
    }
  }

  lemma TwiceInSequence(s: seq<TenantDefault>, i: nat, j: nat)
    requires i < j < |s| && s[i] == s[j]
    ensures multiset(s)[s[i]] >= 2
  {
    assert s == s[..i] + [s[i]] + s[i + 1..j] + [s[j]] + s[j + 1..];
  }

  lemma OnceInDistinct(s: seq<TenantDefault>, d: TenantDefault)
    requires forall i, j :: 0 <= i < j < |s| ==> s[i].policyURN != s[j].policyURN
    ensures multiset(s)[d] <= 1
  {
    if d in s {
      var i :| 0 <= i < |s| && s[i] == d;
      assert s == s[..i] + [d] + s[i + 1..];
      assert d !in s[..i] && d !in s[i + 1..];
    }
  }
}
