/** The loops of `compare_trees`: four passes over sorted paths, one over common properties, and a sort. */
module DtsCompareLoops {
  import opened Wrappers
  import opened Ordering
  import opened DtsValues
  import opened DtsTree
  import opened DtsCanonical
  import opened DtsCompare

  lemma StrictlySortedIsDistinct(s: seq<string>)
    requires StrictlySorted(s, StrLess)
    ensures Distinct(s)
  {
    forall i, j | 0 <= i < j < |s| ensures s[i] != s[j] {
      StrLessAsymmetric(s[i], s[j]);
    }
  }

  lemma DistinctMap<T(!new), U>(f: T -> U, s: seq<T>)
    requires Distinct(s) && forall x, y :: f(x) == f(y) ==> x == y
    ensures Distinct(Map(f, s))
  {
    var m := Map(f, s);
    forall i, j | 0 <= i < j < |m| ensures m[i] != m[j] {
      assert m[i] == f(s[i]) && m[j] == f(s[j]);
    }
  }

  lemma DistinctConcat<T>(a: seq<T>, b: seq<T>)
    requires Distinct(a) && Distinct(b)
    requires forall x | x in a :: x !in b
    ensures Distinct(a + b)
  {
    var c := a + b;
    forall i, j | 0 <= i < j < |c| ensures c[i] != c[j] {
      if i < |a| <= j {
        assert c[i] in a && c[j] in b;
      }
    }
  }

  /** A pass that appends one difference per path of a sorted set. */
  method AppendEach(paths: set<string>, f: string -> Difference) returns (ds: seq<Difference>)
    requires forall x, y :: f(x) == f(y) ==> x == y
    ensures Distinct(ds)
    ensures forall d :: d in ds <==> exists p | p in paths :: d == f(p)
  {
    ds := [];
    var sorted := SortedSet(paths);
    for i := 0 to |sorted|
      invariant ds == Map(f, sorted[..i])
    {
      ds := ds + [f(sorted[i])];
    }
    assert sorted[..|sorted|] == sorted;
    StrictlySortedIsDistinct(sorted);
    DistinctMap(f, sorted);
    forall d ensures d in ds <==> exists p | p in paths :: d == f(p) {
      if d in ds {
        var i :| 0 <= i < |ds| && ds[i] == d;
        assert d == f(sorted[i]) && sorted[i] in paths;
      }
      if p :| p in paths && d == f(p) {
        assert p in sorted;
        var i :| 0 <= i < |sorted| && sorted[i] == p;
        assert ds[i] == d;
      }
    }
  }

  function NodeGone(p: string): Difference {
    Difference(NodeRemoved, p, None, Absent, Absent)
  }

  function NodeNew(p: string): Difference {
    Difference(NodeAdded, p, None, Absent, Absent)
  }

  function PhandleSide(table: map<string, int>, p: string): Side {
    if p in table then Phandle(table[p]) else Absent
  }

  method NodeDifferences(l: Tree, r: Tree) returns (ds: seq<Difference>)
    ensures Distinct(ds)
    ensures forall d :: d in ds <==> IsNodeDifference(l, r, d)
  {
    var lp, rp := Invert(l.phandles), Invert(r.phandles);
    var removed := AppendEach(l.nodes.Keys - r.nodes.Keys, NodeGone);
    var added := AppendEach(r.nodes.Keys - l.nodes.Keys, NodeNew);
    var gone := (p: string) => Difference(PhandleRemoved, p, Some("phandle"), PhandleSide(lp, p), Absent);
    var new' := (p: string) => Difference(PhandleAdded, p, Some("phandle"), Absent, PhandleSide(rp, p));
    var lost := AppendEach(lp.Keys - rp.Keys, gone);
    var gained := AppendEach(rp.Keys - lp.Keys, new');
    ds := removed + added + lost + gained;
    DistinctConcat(removed, added);
    DistinctConcat(removed + added, lost);
    DistinctConcat(removed + added + lost, gained);
    forall d ensures d in ds <==> IsNodeDifference(l, r, d) {
      assert d in ds <==> d in removed || d in added || d in lost || d in gained;
      assert d in removed <==> d.path in l.nodes && d.path !in r.nodes && d == NodeGone(d.path);
      assert d in added <==> d.path in r.nodes && d.path !in l.nodes && d == NodeNew(d.path);
      assert d in lost <==> (d.path in lp && d.path !in rp && d == gone(d.path));
      assert d in gained <==> (d.path in rp && d.path !in lp && d == new'(d.path));
    }
  }

  method Renumberings(l: Tree, r: Tree) returns (xs: seq<Renumbering>)
    ensures StrictlySorted(xs, RenumberingLess)
    ensures forall x :: x in xs <==> IsRenumbered(l, r, x)
  {
    hide Invert, SortedSet, StrLess;
    var lp, rp := Invert(l.phandles), Invert(r.phandles);
    var paths := SortedSet(lp.Keys * rp.Keys);
    forall j | 0 <= j < |paths| ensures paths[j] in lp && paths[j] in rp {
      assert paths[j] in paths;
    }
    xs := [];
    for i := 0 to |paths|
      invariant StrictlySorted(xs, RenumberingLess)
      invariant forall x | x in xs :: x.path in paths[..i] && IsRenumbered(l, r, x)
      invariant forall j | 0 <= j < i && lp[paths[j]] != rp[paths[j]] ::
        Renumbering(paths[j], lp[paths[j]], rp[paths[j]]) in xs
    {
      var path := paths[i];
      if lp[path] != rp[path] {
        forall k | 0 <= k < |xs| ensures StrLess(xs[k].path, path) {
          assert xs[k] in xs;
          var j :| 0 <= j < i && paths[j] == xs[k].path;
          assert StrLess(paths[j], paths[i]);
        }
        xs := xs + [Renumbering(path, lp[path], rp[path])];
      }
    }
    forall x | IsRenumbered(l, r, x) ensures x in xs {
      assert x.path in paths;
      var j :| 0 <= j < |paths| && paths[j] == x.path;
      assert x == Renumbering(paths[j], lp[paths[j]], rp[paths[j]]);
    }
  }

  function PropertyNames(t: Tree, path: string): (names: set<string>)
    requires path in t.nodes
    ensures forall n :: n in names <==> IsProperty(t, path, n)
  {
    t.nodes[path].properties.Keys - {"phandle", "linux,phandle"}
  }

  /** The pass over the properties of one common node. */
  method PropertyDifferences(l: Tree, r: Tree, path: string, unresolved: set<Evidence>)
    returns (ds: seq<Difference>, found: set<Evidence>)
    requires path in l.nodes && path in r.nodes
    ensures Distinct(ds)
    ensures forall d :: d in ds <==> d.property.Some? && IsPropertyDifference(l, r, path, d.property.value, d)
    ensures forall e :: e in found <==>
      e in unresolved ||
      exists name :: IsProperty(l, path, name) && IsProperty(r, path, name) && e in PairEvidence(l, r, path, name)
  {
    hide RawText, CanonicalValue, ValueEvidence, IsProperty;
    var leftNames, rightNames := PropertyNames(l, path), PropertyNames(r, path);
    var gone := (n: string) => Difference(PropertyRemoved, path, Some(n), PrintedAt(l, path, n), Absent);
    var new' := (n: string) => Difference(PropertyAdded, path, Some(n), Absent, PrintedAt(r, path, n));
    var removed := AppendEach(leftNames - rightNames, gone);
    var added := AppendEach(rightNames - leftNames, new');
    var changed;
    changed, found := ChangedProperties(l, r, path, leftNames * rightNames, unresolved);
    ds := removed + added + changed;
    DistinctConcat(removed, added);
    DistinctConcat(removed + added, changed);
    forall d ensures d in ds <==> d.property.Some? && IsPropertyDifference(l, r, path, d.property.value, d) {
      assert d in ds <==> d in removed || d in added || d in changed;
      if d.property.Some? {
        var n := d.property.value;
        assert d in removed <==> (n in leftNames - rightNames && d == gone(n));
        assert d in added <==> (n in rightNames - leftNames && d == new'(n));
      }
    }
  }

  /** One property that differs on both sides. */
  predicate IsChanged(l: Tree, r: Tree, path: string, name: string, d: Difference) {
    d.kind == PropertyChanged && IsPropertyDifference(l, r, path, name, d)
  }

  lemma ChangedIsCommon(l: Tree, r: Tree, path: string, name: string, d: Difference)
    requires IsChanged(l, r, path, name, d)
    ensures IsProperty(l, path, name) && IsProperty(r, path, name)
  {
    hide CanonicalValue, IsProperty;
  }

  /** The evidence found name by name is that of the common properties. */
  lemma ListedEvidence(l: Tree, r: Tree, path: string, common: set<string>, names: seq<string>, e: Evidence)
    requires forall n :: n in common <==> IsProperty(l, path, n) && IsProperty(r, path, n)
    requires forall n :: n in names <==> n in common
    ensures forall j | 0 <= j < |names| :: IsProperty(l, path, names[j]) && IsProperty(r, path, names[j])
    ensures (exists j | 0 <= j < |names| :: e in PairEvidence(l, r, path, names[j])) <==>
      exists name :: IsProperty(l, path, name) && IsProperty(r, path, name) && e in PairEvidence(l, r, path, name)
  {
    hide IsProperty, PairEvidence;
    forall j | 0 <= j < |names| ensures IsProperty(l, path, names[j]) && IsProperty(r, path, names[j]) {
      assert names[j] in names;
    }
    forall name | IsProperty(l, path, name) && IsProperty(r, path, name) && e in PairEvidence(l, r, path, name)
      ensures exists j | 0 <= j < |names| :: e in PairEvidence(l, r, path, names[j])
    {
      assert name in names;
    }
  }

  /** A property of both sides changed exactly when its canonical forms differ, and then in one way. */
  lemma OneChange(l: Tree, r: Tree, path: string, name: string, left: Canonical, right: Canonical)
    requires path in l.nodes && path in r.nodes && IsProperty(l, path, name) && IsProperty(r, path, name)
    requires left == LeftValue(l, r, path, name) && right == LeftValue(r, l, path, name)
    ensures forall d :: IsChanged(l, r, path, name, d) <==>
      left != right && d == Difference(PropertyChanged, path, Some(name), Value(left), Value(right))
  {
    hide CanonicalValue, IsProperty;
  }

  method ChangedProperties(l: Tree, r: Tree, path: string, common: set<string>, unresolved: set<Evidence>)
    returns (changed: seq<Difference>, found: set<Evidence>)
    requires path in l.nodes && path in r.nodes
    requires forall n :: n in common <==> IsProperty(l, path, n) && IsProperty(r, path, n)
    ensures Distinct(changed)
    ensures forall d :: d in changed <==> d.property.Some? && IsChanged(l, r, path, d.property.value, d)
    ensures forall e :: e in found <==>
      e in unresolved ||
      exists name :: IsProperty(l, path, name) && IsProperty(r, path, name) && e in PairEvidence(l, r, path, name)
  {
    hide CanonicalValue, ValueEvidence, IsProperty, IsChanged;
    changed, found := [], unresolved;
    var names := SortedSet(common);
    StrictlySortedIsDistinct(names);
    for i := 0 to |names|
      invariant Distinct(changed)
      invariant forall d | d in changed ::
        d.property.Some? && d.property.value in names[..i] && IsChanged(l, r, path, d.property.value, d)
      invariant forall j, d | 0 <= j < i && IsChanged(l, r, path, names[j], d) :: d in changed
      invariant forall e :: e in found <==>
        e in unresolved || exists j | 0 <= j < i :: e in PairEvidence(l, r, path, names[j])
    {
      var name := names[i];
      assert name in common;
      var p, q := PropertyAt(l, path, name), PropertyAt(r, path, name);
      ghost var before := found;
      var leftValue, rightValue;
      leftValue, found := CanonicalProperty(l, p, Some(q), found);
      rightValue, found := CanonicalProperty(r, q, Some(p), found);
      assert found == before + PairEvidence(l, r, path, name);
      ghost var old' := changed;
      if leftValue != rightValue {
        changed := changed + [Difference(PropertyChanged, path, Some(name), Value(leftValue), Value(rightValue))];
      }
      OneChange(l, r, path, name, leftValue, rightValue);
    }
    forall e ensures e in found <==>
      e in unresolved ||
      exists name :: IsProperty(l, path, name) && IsProperty(r, path, name) && e in PairEvidence(l, r, path, name)
    {
      ListedEvidence(l, r, path, common, names, e);
    }
    forall d ensures d in changed <==> d.property.Some? && IsChanged(l, r, path, d.property.value, d) {
      if d.property.Some? && IsChanged(l, r, path, d.property.value, d) {
        ChangedIsCommon(l, r, path, d.property.value, d);
        assert d.property.value in names;
      }
    }
  }

  /** The final sort: no two differences share a key, so the sorted list is strict. */
  method SortDifferences(l: Tree, r: Tree, ds: seq<Difference>) returns (sorted: seq<Difference>)
    requires Distinct(ds) && forall d | d in ds :: IsDifference(l, r, d)
    ensures StrictlySorted(sorted, DifferenceLess)
    ensures forall d :: d in sorted <==> d in ds
  {
    hide IsDifference;
    sorted := [];
    for i := 0 to |ds|
      invariant StrictlySorted(sorted, DifferenceLess)
      invariant forall d :: d in sorted <==> d in ds[..i]
    {
      var d := ds[i];
      assert d in ds && d !in ds[..i];
      var k := 0;
      while k < |sorted| && DifferenceLess(sorted[k], d)
        invariant 0 <= k <= |sorted|
        invariant forall j | 0 <= j < k :: DifferenceLess(sorted[j], d)
      {
        k := k + 1;
      }
      forall j | k <= j < |sorted| ensures DifferenceLess(d, sorted[j]) {
        assert sorted[k] in sorted && sorted[k] in ds[..i] && sorted[k] in ds;
        DifferencesAreOrdered(l, r, d, sorted[k]);
        if k < j {
          assert DifferenceLess(sorted[k], sorted[j]);
          DifferenceLessTransitive(d, sorted[k], sorted[j]);
        }
      }
      ghost var before := sorted;
      InsertedMembers(sorted, k, d);
      sorted := sorted[..k] + [d] + sorted[k..];
      assert ds[..i + 1] == ds[..i] + [d];
    }
    assert ds[..|ds|] == ds;
  }

  lemma InsertedMembers(s: seq<Difference>, k: nat, d: Difference)
    requires k <= |s|
    ensures forall x :: x in s[..k] + [d] + s[k..] <==> x == d || x in s
  {
    assert s == s[..k] + s[k..];
  }

  lemma DifferenceLessTransitive(a: Difference, b: Difference, c: Difference)
    requires DifferenceLess(a, b) && DifferenceLess(b, c)
    ensures DifferenceLess(a, c)
  {
    if StrLess(a.path, b.path) && StrLess(b.path, c.path) {
      StrLessTransitive(a.path, b.path, c.path);
    } else if a.path == b.path == c.path {
      StrLessTransitive(PropertyText(a), PropertyText(b), PropertyText(c));
    }
  }

  /** The pass over the common nodes, appending to the differences found so far. */
  method CommonDifferences(l: Tree, r: Tree, nodeDifferences: seq<Difference>)
    returns (ds: seq<Difference>, unresolved: set<Evidence>)
    requires Distinct(nodeDifferences)
    requires forall d :: d in nodeDifferences <==> IsNodeDifference(l, r, d)
    ensures Distinct(ds)
    ensures forall d :: d in ds <==> IsDifference(l, r, d)
    ensures forall e :: e in unresolved <==> IsUnresolved(l, r, e)
  {
    hide IsNodeDifference, IsPropertyDifference, PairEvidence, IsProperty, EvidenceOf, IsUnresolved;
    ds, unresolved := nodeDifferences, {};
    var common := SortedSet(l.nodes.Keys * r.nodes.Keys);
    StrictlySortedIsDistinct(common);
    for i := 0 to |common|
      invariant Distinct(ds)
      invariant forall d :: d in ds <==> IsNodeDifference(l, r, d) || IsCommonDifference(l, r, common[..i], d)
      invariant forall e :: e in unresolved <==> exists path | path in common[..i] :: EvidenceOf(l, r, path, e)
    {
      var path := common[i];
      assert path in common;
      ghost var before := unresolved;
      var more;
      more, unresolved := PropertyDifferences(l, r, path, unresolved);
      forall d | d in more ensures d.path == path && d !in ds {
        PropertyPath(l, r, path, d);
        NodeOrProperty(l, r, d);
      }
      assert common[..i + 1] == common[..i] + [path];
      DistinctConcat(ds, more);
      forall d ensures d in more <==> d.path == path && IsCommonDifference(l, r, [path], d) {
        PropertyPath(l, r, path, d);
      }
      ds := ds + more;
      forall e ensures e in unresolved <==> exists p | p in common[..i + 1] :: EvidenceOf(l, r, p, e) {
        EvidenceOfPath(l, r, path, e);
      }
    }
    assert common[..|common|] == common;
    forall d ensures d in ds <==> IsDifference(l, r, d) {
      PropertyPath(l, r, d.path, d);
    }
    forall e ensures e in unresolved <==> IsUnresolved(l, r, e) {
      EvidenceIsUnresolved(l, r, e);
    }
  }

  predicate IsCommonDifference(l: Tree, r: Tree, paths: seq<string>, d: Difference) {
    d.path in paths && d.property.Some? && IsPropertyDifference(l, r, d.path, d.property.value, d)
  }

  /** The whole comparison. */
  method CompareTrees(l: Tree, r: Tree) returns (c: Comparison)
    ensures IsComparison(c, l, r)
  {
    var nodeDifferences := NodeDifferences(l, r);
    var renumbered := Renumberings(l, r);
    var ds, unresolved := CommonDifferences(l, r, nodeDifferences);
    ds := SortDifferences(l, r, ds);
    c := Comparison(l, r, ds, renumbered, unresolved);
  }

  lemma EvidenceOfPath(l: Tree, r: Tree, path: string, e: Evidence)
    ensures EvidenceOf(l, r, path, e) <==>
            exists name :: IsProperty(l, path, name) && IsProperty(r, path, name) && e in PairEvidence(l, r, path, name)
  {
  }

  ghost predicate EvidenceOf(l: Tree, r: Tree, path: string, e: Evidence) {
    exists name :: IsProperty(l, path, name) && IsProperty(r, path, name) && e in PairEvidence(l, r, path, name)
  }

  lemma EvidenceIsUnresolved(l: Tree, r: Tree, e: Evidence)
    ensures IsUnresolved(l, r, e) <==>
            exists path | path in l.nodes && path in r.nodes :: EvidenceOf(l, r, path, e)
  {
    hide PairEvidence;
    if IsUnresolved(l, r, e) {
      var path, name :|
        IsProperty(l, path, name) && IsProperty(r, path, name) && e in PairEvidence(l, r, path, name);
      assert EvidenceOf(l, r, path, e);
    }
  }

  lemma NodeOrProperty(l: Tree, r: Tree, d: Difference)
    ensures IsNodeDifference(l, r, d) ==>
            !(d.property.Some? && IsPropertyDifference(l, r, d.path, d.property.value, d))
  {
  }

  lemma PropertyPath(l: Tree, r: Tree, path: string, d: Difference)
    ensures d.property.Some? && IsPropertyDifference(l, r, path, d.property.value, d)
            ==> d.path == path && path in l.nodes && path in r.nodes
  {
  }
}
