/**
 Kernel-module lists: a one-step dependency check that amounts to transitive closure, order-keeping
 removal of duplicates, and the comparison of two load orders on their common modules.
 */
module ModuleClosure {
  import opened Wrappers
  import opened Ordering

  type Deps = map<string, set<string>>

  // ----- duplicates -----

  method DedupeList(values: seq<string>) returns (result: seq<string>)
    ensures result == Dedupe(values)
  {
    var seen: set<string> := {};
    result := [];
    for i := 0 to |values|
      invariant result == Dedupe(values[..i])
      invariant forall x :: x in seen <==> x in values[..i]
    {
      assert values[..i + 1][..i] == values[..i];
      assert values[..i + 1] == values[..i] + [values[i]];
      if values[i] !in seen {
        seen := seen + {values[i]};
        result := result + [values[i]];
      }
    }
    assert values[..|values|] == values;
  }

  /** `x` is met before `y`: at its first occurrence, `y` has not occurred yet. */
  ghost predicate FirstBefore(s: seq<string>, x: string, y: string) {
    exists i :: 0 <= i < |s| && s[i] == x && y !in s[..i + 1]
  }

  lemma FirstBeforeAppend(s: seq<string>, z: string, x: string, y: string)
    ensures FirstBefore(s + [z], x, y) <==> FirstBefore(s, x, y) || (z == x && x != y && y !in s)
  {
    var t := s + [z];
    if i :| 0 <= i < |t| && t[i] == x && y !in t[..i + 1] {
      if i < |s| {
        assert t[..i + 1] == s[..i + 1];
        assert s[i] == x;
      } else {
        assert t[..i + 1] == t;
      }
    }
    if i :| 0 <= i < |s| && s[i] == x && y !in s[..i + 1] {
      assert t[i] == x && t[..i + 1] == s[..i + 1];
    }
    if z == x && x != y && y !in s {
      assert t[|s|] == x && t[..|s| + 1] == t;
    }
  }

  /** Removing duplicates keeps the order in which values are first met. */
  lemma {:induction false} DedupeKeepsOrder(s: seq<string>, x: string, y: string)
    ensures FirstBefore(Dedupe(s), x, y) <==> FirstBefore(s, x, y)
  {
    if s != [] {
      var front, z := s[..|s| - 1], s[|s| - 1];
      DedupeKeepsOrder(front, x, y);
      DedupeMembers(front);
      assert s == front + [z];
      FirstBeforeAppend(front, z, x, y);
      FirstBeforeAppend(Dedupe(front), z, x, y);
      if z in front && z == x && x != y && y !in front {
        MetFirst(front, x, y);
      }
    }
  }

  lemma MetFirst(s: seq<string>, x: string, y: string)
    requires x in s && y !in s
    ensures FirstBefore(s, x, y)
  {
    var i :| 0 <= i < |s| && s[i] == x;
    assert forall k | 0 <= k < i + 1 :: s[..i + 1][k] == s[k];
  }

  // ----- load orders -----

  /** `[item for item in list if item in common]` */
  function Keep(s: seq<string>, common: set<string>): seq<string> {
    if s == [] then []
    else
      var front := Keep(s[..|s| - 1], common);
      if s[|s| - 1] in common then front + [s[|s| - 1]] else front
  }

  function Common(left: seq<string>, right: seq<string>): set<string> {
    (set x | x in left) * (set x | x in right)
  }

  predicate OrdersEqual(left: seq<string>, right: seq<string>) {
    Keep(left, Common(left, right)) == Keep(right, Common(left, right))
  }

  /** Position of a value in a list without repeats. */
  ghost predicate Precedes(s: seq<string>, x: string, y: string) {
    exists i, j :: 0 <= i < j < |s| && s[i] == x && s[j] == y
  }

  lemma {:induction false} KeptMembers(s: seq<string>, common: set<string>)
    requires Distinct(s)
    ensures Distinct(Keep(s, common))
    ensures forall x :: x in Keep(s, common) <==> x in s && x in common
  {
    if s != [] {
      KeptMembers(s[..|s| - 1], common);
      assert s == s[..|s| - 1] + [s[|s| - 1]];
      assert s[|s| - 1] !in s[..|s| - 1];
    }
  }

  lemma PrecedesAppend(s: seq<string>, z: string, x: string, y: string)
    ensures Precedes(s + [z], x, y) <==> Precedes(s, x, y) || (z == y && x in s)
  {
    var t := s + [z];
    if i, j :| 0 <= i < j < |s| && s[i] == x && s[j] == y {
      assert t[i] == x && t[j] == y;
    }
    if z == y && x in s {
      var i :| 0 <= i < |s| && s[i] == x;
      assert t[i] == x && t[|s|] == y;
    }
    if i, j :| 0 <= i < j < |t| && t[i] == x && t[j] == y {
      if j < |s| {
        assert s[i] == x && s[j] == y;
      }
    }
  }

  lemma {:induction false} KeptOrder(s: seq<string>, common: set<string>, x: string, y: string)
    requires Distinct(s) && x in common && y in common
    ensures Precedes(Keep(s, common), x, y) <==> Precedes(s, x, y)
  {
    if s != [] {
      var front, z := s[..|s| - 1], s[|s| - 1];
      KeptOrder(front, common, x, y);
      KeptMembers(front, common);
      assert s == front + [z];
      PrecedesAppend(front, z, x, y);
      PrecedesAppend(Keep(front, common), z, x, y);
    }
  }

  lemma NothingPrecedesFirst(s: seq<string>, x: string)
    requires Distinct(s) && s != []
    ensures !Precedes(s, x, s[0])
  {
  }

  /** Lists without repeats, with the same members in the same relative order, are equal. */
  lemma {:induction false} OrderDecides(a: seq<string>, b: seq<string>)
    requires Distinct(a) && Distinct(b) && forall x :: x in a <==> x in b
    requires forall x, y :: Precedes(a, x, y) <==> Precedes(b, x, y)
    ensures a == b
  {
    if a == [] {
      assert forall i | 0 <= i < |b| :: b[i] in b;
    } else {
      assert a[0] in b && b != [] && b[0] in a;
      SameHead(a, b);
      TailPrecedes(a);
      TailPrecedes(b);
      assert a == [a[0]] + a[1..] && b == [b[0]] + b[1..];
      forall x ensures x in a[1..] <==> x in b[1..] {
      }
      forall x, y ensures Precedes(a[1..], x, y) <==> Precedes(b[1..], x, y) {
      }
      OrderDecides(a[1..], b[1..]);
    }
  }

  lemma SameHead(a: seq<string>, b: seq<string>)
    requires Distinct(a) && Distinct(b) && a != [] && b != [] && a[0] in b && b[0] in a
    requires forall x, y :: Precedes(a, x, y) <==> Precedes(b, x, y)
    ensures a[0] == b[0]
  {
    var i :| 0 <= i < |b| && b[i] == a[0];
    NothingPrecedesFirst(a, b[0]);
    assert !Precedes(b, b[0], a[0]);
    assert i == 0;
  }

  lemma TailPrecedes(s: seq<string>)
    requires Distinct(s) && s != []
    ensures forall x, y :: Precedes(s[1..], x, y) <==> Precedes(s, x, y) && x != s[0]
    ensures forall x :: x in s[1..] <==> x in s && x != s[0]
  {
    var t := s[1..];
    assert forall i | 0 <= i < |t| :: t[i] == s[i + 1];
    forall x, y ensures Precedes(t, x, y) <==> Precedes(s, x, y) && x != s[0] {
      if i, j :| 0 <= i < j < |t| && t[i] == x && t[j] == y {
        assert s[i + 1] == x && s[j + 1] == y;
      }
      if x != s[0] && Precedes(s, x, y) {
        var i, j :| 0 <= i < j < |s| && s[i] == x && s[j] == y;
        assert t[i - 1] == x && t[j - 1] == y;
      }
    }
  }

  /** The orders are equal exactly when every two common modules stand the same way round in both. */
  lemma OrdersEqualExactly(left: seq<string>, right: seq<string>)
    requires Distinct(left) && Distinct(right)
    ensures OrdersEqual(left, right) <==>
      forall x, y | x in left && x in right && y in left && y in right :: Precedes(left, x, y) <==> Precedes(right, x, y)
  {
    var common := Common(left, right);
    var a, b := Keep(left, common), Keep(right, common);
    KeptMembers(left, common);
    KeptMembers(right, common);
    forall x, y | x in common && y in common
      ensures Precedes(a, x, y) <==> Precedes(left, x, y)
      ensures Precedes(b, x, y) <==> Precedes(right, x, y)
    {
      KeptOrder(left, common, x, y);
      KeptOrder(right, common, x, y);
    }
    if forall x, y | x in common && y in common :: Precedes(left, x, y) <==> Precedes(right, x, y) {
      forall x, y ensures Precedes(a, x, y) <==> Precedes(b, x, y) {
        PrecedesMembers(a, x, y);
        PrecedesMembers(b, x, y);
      }
      OrderDecides(a, b);
    }
  }

  lemma PrecedesMembers(s: seq<string>, x: string, y: string)
    ensures Precedes(s, x, y) ==> x in s && y in s
  {
  }

  // ----- dependencies -----

  function DependsOn(deps: Deps, soft: Deps, owner: string): set<string> {
    (if owner in deps then deps[owner] else {}) + (if owner in soft then soft[owner] else {})
  }

  datatype Gap = Gap(owner: string, dependency: string)

  function GapsOf(included: set<string>, owner: string, dependencies: seq<string>): seq<Gap> {
    if dependencies == [] then []
    else
      var front, last := GapsOf(included, owner, dependencies[..|dependencies| - 1]), dependencies[|dependencies| - 1];
      if last in included then front else front + [Gap(owner, last)]
  }

  function GapsOfAll(included: set<string>, deps: Deps, soft: Deps, owners: seq<string>): seq<Gap> {
    if owners == [] then []
    else
      var last := owners[|owners| - 1];
      GapsOfAll(included, deps, soft, owners[..|owners| - 1]) + GapsOf(included, last, SortedSet(DependsOn(deps, soft, last)))
  }

  /** `missing_closure`: owners and dependencies in sorted order. */
  function MissingClosure(included: set<string>, deps: Deps, soft: Deps): seq<Gap> {
    GapsOfAll(included, deps, soft, SortedSet(included))
  }

  lemma OneDependency(included: set<string>, owner: string, ds: seq<string>, j: nat)
    requires j < |ds|
    ensures
      GapsOf(included, owner, ds[..j + 1]) ==
      GapsOf(included, owner, ds[..j]) + if ds[j] in included then [] else [Gap(owner, ds[j])]
  {
    assert ds[..j + 1][..j] == ds[..j];
  }

  lemma OneOwner(included: set<string>, deps: Deps, soft: Deps, owners: seq<string>, i: nat)
    requires i < |owners|
    ensures
      GapsOfAll(included, deps, soft, owners[..i + 1]) ==
      GapsOfAll(included, deps, soft, owners[..i])
        + GapsOf(included, owners[i], SortedSet(DependsOn(deps, soft, owners[i])))
  {
    hide SortedSet, DependsOn, GapsOf;
    assert owners[..i + 1][..i] == owners[..i];
  }

  lemma NoGapsYet(included: set<string>, deps: Deps, soft: Deps, owner: string)
    ensures GapsOf(included, owner, []) == [] && GapsOfAll(included, deps, soft, []) == []
  {
  }

  method FindMissing(included: set<string>, deps: Deps, soft: Deps) returns (missing: seq<Gap>)
    ensures missing == MissingClosure(included, deps, soft)
  {
    hide SortedSet, DependsOn, GapsOf, GapsOfAll;
    missing := [];
    var owners := SortedSet(included);
    NoGapsYet(included, deps, soft, "");
    assert owners[..0] == [];
    for i := 0 to |owners|
      invariant missing == GapsOfAll(included, deps, soft, owners[..i])
    {
      ghost var before := missing;
      var owner := owners[i];
      var dependencies := SortedSet(DependsOn(deps, soft, owner));
      NoGapsYet(included, deps, soft, owner);
      assert dependencies[..0] == [];
      for j := 0 to |dependencies|
        invariant missing == before + GapsOf(included, owner, dependencies[..j])
      {
        OneDependency(included, owner, dependencies, j);
        if dependencies[j] !in included {
          missing := missing + [Gap(owner, dependencies[j])];
        }
      }
      assert dependencies[..|dependencies|] == dependencies;
      OneOwner(included, deps, soft, owners, i);
    }
    assert owners[..|owners|] == owners;
  }

  lemma {:induction false} GapsMembers(included: set<string>, owner: string, ds: seq<string>, g: Gap)
    ensures g in GapsOf(included, owner, ds) <==> g.owner == owner && g.dependency in ds && g.dependency !in included
  {
    if ds != [] {
      GapsMembers(included, owner, ds[..|ds| - 1], g);
      assert ds == ds[..|ds| - 1] + [ds[|ds| - 1]];
    }
  }

  lemma {:induction false} AllGapsMembers(included: set<string>, deps: Deps, soft: Deps, owners: seq<string>, g: Gap)
    ensures g in GapsOfAll(included, deps, soft, owners) <==>
      g.owner in owners && g.dependency in DependsOn(deps, soft, g.owner) && g.dependency !in included
  {
    hide DependsOn;
    if owners != [] {
      var last := owners[|owners| - 1];
      AllGapsMembers(included, deps, soft, owners[..|owners| - 1], g);
      GapsMembers(included, last, SortedSet(DependsOn(deps, soft, last)), g);
      assert owners == owners[..|owners| - 1] + [last];
    }
  }

  /** A hard or a soft dependency. */
  predicate Needs(deps: Deps, soft: Deps, owner: string, d: string) {
    (owner in deps && d in deps[owner]) || (owner in soft && d in soft[owner])
  }

  /** A chain of hard or soft dependencies. */
  ghost predicate Reaches(deps: Deps, soft: Deps, start: string, chain: seq<string>, end: string)
    decreases |chain|
  {
    if chain == [] then start == end
    else Needs(deps, soft, start, chain[0]) && Reaches(deps, soft, chain[0], chain[1..], end)
  }

  lemma {:induction false} ChainStaysIncluded(
      included: set<string>, deps: Deps, soft: Deps, start: string, chain: seq<string>, end: string)
    requires MissingClosure(included, deps, soft) == [] && start in included && Reaches(deps, soft, start, chain, end)
    ensures end in included
    decreases |chain|
  {
    if chain != [] {
      AllGapsMembers(included, deps, soft, SortedSet(included), Gap(start, chain[0]));
      ChainStaysIncluded(included, deps, soft, chain[0], chain[1..], end);
    }
  }

  ghost predicate ClosedUnderChains(included: set<string>, deps: Deps, soft: Deps) {
    forall start, chain, end | start in included && Reaches(deps, soft, start, chain, end) :: end in included
  }

  lemma StepIsChain(included: set<string>, deps: Deps, soft: Deps, owner: string, d: string)
    requires ClosedUnderChains(included, deps, soft) && owner in included && d in DependsOn(deps, soft, owner)
    ensures d in included
  {
    assert [d][1..] == [];
    assert Reaches(deps, soft, d, [], d);
    assert Reaches(deps, soft, owner, [d], d);
  }

  /** The one-step check finds nothing exactly when every module reachable by any chain is included. */
  lemma NothingMissingExactly(included: set<string>, deps: Deps, soft: Deps)
    ensures MissingClosure(included, deps, soft) == [] <==> ClosedUnderChains(included, deps, soft)
  {
    var gaps := MissingClosure(included, deps, soft);
    assert gaps == [] || gaps[0] in gaps;
    if gaps == [] {
      forall start, chain, end | start in included && Reaches(deps, soft, start, chain, end) ensures end in included {
        ChainStaysIncluded(included, deps, soft, start, chain, end);
      }
    }
    if ClosedUnderChains(included, deps, soft) {
      forall g ensures g !in gaps {
        AllGapsMembers(included, deps, soft, SortedSet(included), g);
        if g.owner in included && g.dependency in DependsOn(deps, soft, g.owner) {
          StepIsChain(included, deps, soft, g.owner, g.dependency);
        }
      }
    }
  }

  /** The report lists each missing direct dependency of an included module, and nothing else. */
  lemma MissingAreDirect(included: set<string>, deps: Deps, soft: Deps, g: Gap)
    ensures g in MissingClosure(included, deps, soft) <==>
      g.owner in included && Needs(deps, soft, g.owner, g.dependency) && g.dependency !in included
  {
    AllGapsMembers(included, deps, soft, SortedSet(included), g);
  }
}
