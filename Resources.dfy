/**
 * Resources: the chain of an authorization resource up to its root, optionally filtered,
 * and the dispatch of an external resource name to the resource kind whose root it starts with.
 */
module AuthResources {
  import opened Common

  /** A resource, by its name. */
  type Resource = string

  /**
   * The resource hierarchy: the parent of each resource that has one (hasParent and
   * getParent), and a depth that every parent step lowers, so every walk up ends.
   */
  datatype Hierarchy = Hierarchy(parent: map<Resource, Resource>, depth: map<Resource, nat>)

  predicate Ranked(h: Hierarchy)
  {
    forall r <- h.parent :: r in h.depth && h.parent[r] in h.depth && h.depth[h.parent[r]] < h.depth[r]
  }

  function Depth(h: Hierarchy, r: Resource): nat
  {
    if r in h.depth then h.depth[r] else 0
  }

  /** The unfiltered chain: the resource, its parent, its parent's parent, and so on up to a root. */
  function Ancestry(h: Hierarchy, r: Resource): seq<Resource>
    requires Ranked(h)
    decreases Depth(h, r)
  {
    [r] + if r in h.parent then Ancestry(h, h.parent[r]) else []
  }

  /** The number of parent steps from `r` to its root. */
  function AncestorCount(h: Hierarchy, r: Resource): nat
    requires Ranked(h)
    decreases Depth(h, r)
  {
    if r in h.parent then 1 + AncestorCount(h, h.parent[r]) else 0
  }

  /**
   * The chain starts with the resource, steps to the parent each time, ends at a resource
   * with no parent, never repeats a resource, and has one element per ancestor plus one.
   */
  lemma {:induction false} AncestryShape(h: Hierarchy, r: Resource)
    requires Ranked(h)
    decreases Depth(h, r)
    ensures var a := Ancestry(h, r);
            && |a| == AncestorCount(h, r) + 1
            && a[0] == r
            && (forall i :: 0 <= i < |a| - 1 ==> a[i] in h.parent && a[i + 1] == h.parent[a[i]])
            && a[|a| - 1] !in h.parent
            && (forall i :: 1 <= i < |a| ==> Depth(h, a[i]) < Depth(h, r))
            && NoDuplicates(a)
  {
    if r in h.parent {
      var p := h.parent[r];
      AncestryShape(h, p);
      var a := Ancestry(h, r);
      assert a == [r] + Ancestry(h, p);
      assert forall i :: 1 <= i < |a| ==> a[i] == Ancestry(h, p)[i - 1];
      forall i, j | 0 <= i < j < |a|
        ensures a[i] != a[j]
      {
        if i == 0 {
          assert Depth(h, a[j]) < Depth(h, r);
        }
      }
    }
  }

  /** The elements of `s` that `filter` accepts, in order. */
  function Keep(s: seq<Resource>, filter: Resource -> bool): seq<Resource>
  {
    if s == [] then [] else (if filter(s[0]) then [s[0]] else []) + Keep(s[1..], filter)
  }

  /** Keep keeps exactly the accepted elements, and with the always-true filter, everything. */
  lemma {:induction false} KeepExactly(s: seq<Resource>, filter: Resource -> bool)
    ensures forall x :: x in Keep(s, filter) <==> x in s && filter(x)
    ensures |Keep(s, filter)| <= |s|
    ensures (forall x :: filter(x)) ==> Keep(s, filter) == s
  {
    if s != [] {
      KeepExactly(s[1..], filter);
      assert s == [s[0]] + s[1..];
    }
  }

  /** chain(resource, filter). */
  method Chain(h: Hierarchy, resource: Resource, filter: Resource -> bool) returns (chain: seq<Resource>)
    requires Ranked(h)
    ensures chain == Keep(Ancestry(h, resource), filter)
  {
    chain := [];
    var current := resource;
    while true
      invariant chain + Keep(Ancestry(h, current), filter) == Keep(Ancestry(h, resource), filter)
      decreases Depth(h, current)
    {
      ChainStep(h, current, filter);
      ghost var before := chain;
      ghost var kept: seq<Resource> := if filter(current) then [current] else [];
      ghost var above := if current in h.parent then Keep(Ancestry(h, h.parent[current]), filter) else [];
      if filter(current) {
        chain := chain + [current];
      }
      assert chain == before + kept;
      assert chain + above == before + (kept + above);
      if current !in h.parent {
        assert chain + above == chain;
        break;
      }
      current := h.parent[current];
    }
  }

  /** One step up the chain: the current resource if the filter accepts it, then its parent's filtered chain. */
  lemma ChainStep(h: Hierarchy, current: Resource, filter: Resource -> bool)
    requires Ranked(h)
    ensures Keep(Ancestry(h, current), filter)
         == (if filter(current) then [current] else [])
            + (if current in h.parent then Keep(Ancestry(h, h.parent[current]), filter) else [])
  {
    var rest := if current in h.parent then Ancestry(h, h.parent[current]) else [];
    assert Ancestry(h, current) == [current] + rest;
    assert ([current] + rest)[0] == current && ([current] + rest)[1..] == rest;
  }

  /** chain(resource): the chain with the always-true filter. */
  method ChainAll(h: Hierarchy, resource: Resource) returns (chain: seq<Resource>)
    requires Ranked(h)
    ensures chain == Ancestry(h, resource)
  {
    chain := Chain(h, resource, r => true);
    KeepExactly(Ancestry(h, resource), r => true);
  }

  /** A filtered chain is the unfiltered one with the rejected resources left out: all it holds is accepted. */
  lemma FilteredChain(h: Hierarchy, resource: Resource, filter: Resource -> bool)
    requires Ranked(h)
    ensures forall x :: x in Keep(Ancestry(h, resource), filter) <==> x in Ancestry(h, resource) && filter(x)
    ensures NoDuplicates(Keep(Ancestry(h, resource), filter))
  {
    KeepExactly(Ancestry(h, resource), filter);
    AncestryShape(h, resource);
    KeepKeepsDistinct(Ancestry(h, resource), filter);
  }

  lemma {:induction false} KeepKeepsDistinct(s: seq<Resource>, filter: Resource -> bool)
    requires NoDuplicates(s)
    ensures NoDuplicates(Keep(s, filter))
  {
    if s != [] {
      assert forall i, j :: 0 <= i < j < |s[1..]| ==> s[1..][i] == s[i + 1] && s[1..][j] == s[j + 1];
      KeepKeepsDistinct(s[1..], filter);
      KeepExactly(s[1..], filter);
      assert s[0] !in s[1..];
    }
  }

  // ---------------------------------------------------------------------------
  // fromName
  // ---------------------------------------------------------------------------

  datatype ResourceKind = RoleKind | DataKind | FunctionKind | JmxKind

  /** The names of the four root resources. */
  datatype Roots = Roots(role: string, data: string, functions: string, jmx: string)

  /** The kinds fromName tries, in order. */
  const KindOrder: seq<ResourceKind> := [RoleKind, DataKind, FunctionKind, JmxKind]

  function RootName(roots: Roots, k: ResourceKind): string
  {
    match k
    case RoleKind => roots.role
    case DataKind => roots.data
    case FunctionKind => roots.functions
    case JmxKind => roots.jmx
  }

  /**
   * fromName: the kind whose parser the name goes to. It picks the first kind in role,
   * data, function, JMX order whose root name prefixes the name, and rejects the name
   * (None) exactly when no root prefixes it.
   */
  function FromName(name: string, roots: Roots): (kind: Option<ResourceKind>)
    ensures kind.None? <==> forall k <- KindOrder :: !StartsWith(name, RootName(roots, k))
    ensures forall i :: 0 <= i < |KindOrder| ==>
              (kind == Some(KindOrder[i]) <==>
                 StartsWith(name, RootName(roots, KindOrder[i]))
                 && forall j :: 0 <= j < i ==> !StartsWith(name, RootName(roots, KindOrder[j])))
  {
    assert KindOrder[0] == RoleKind && KindOrder[1] == DataKind && KindOrder[2] == FunctionKind && KindOrder[3] == JmxKind;
    assert forall k :: k in KindOrder <==> k == RoleKind || k == DataKind || k == FunctionKind || k == JmxKind;
    assert RoleKind in KindOrder && DataKind in KindOrder && FunctionKind in KindOrder && JmxKind in KindOrder;
    if StartsWith(name, roots.role) then Some(RoleKind)
    else if StartsWith(name, roots.data) then Some(DataKind)
    else if StartsWith(name, roots.functions) then Some(FunctionKind)
    else if StartsWith(name, roots.jmx) then Some(JmxKind)
    else None
  }
}
