/**
 The tree comparison. `IsDifference`, `IsRenumbered` and `IsUnresolved` say what belongs in a
 comparison, independently of any order of work; `CompareTrees` is the source's loops and sort.
 */
module DtsCompare {
  import opened Wrappers
  import opened Ordering
  import opened DtsValues
  import opened DtsTree
  import opened DtsCanonical

  datatype Kind =
    | NodeRemoved | NodeAdded
    | PhandleRemoved | PhandleAdded
    | PropertyRemoved | PropertyAdded | PropertyChanged

  datatype Side = Absent | Phandle(n: int) | Printed(text: string) | Value(value: Canonical)

  datatype Difference = Difference(kind: Kind, path: string, property: Option<string>, left: Side, right: Side)

  datatype Renumbering = Renumbering(path: string, left: int, right: int)

  datatype Comparison = Comparison(
    left: Tree,
    right: Tree,
    differences: seq<Difference>,
    renumbered: seq<Renumbering>,
    unresolved: set<Evidence>)

  datatype Status = EQUIVALENT | DIFFERENT | DIFFERENT_INCOMPLETE | INCONCLUSIVE

  predicate HasCaveats(t: Tree) {
    t.issues != [] || t.unsupported != [] || t.duplicatePaths != [] || t.duplicateLabels != []
  }

  predicate Incomplete(c: Comparison) {
    c.unresolved != {} || HasCaveats(c.left) || HasCaveats(c.right)
  }

  function StatusOf(c: Comparison): Status {
    if c.differences == [] && !Incomplete(c) then EQUIVALENT
    else if c.differences != [] then if Incomplete(c) then DIFFERENT_INCOMPLETE else DIFFERENT
    else INCONCLUSIVE
  }

  // ----- what belongs in a comparison -----

  /** `{path: value for value, path in phandles.items()}`: a later number replaces an earlier one. */
  function Invert(table: seq<(int, string)>): map<string, int> {
    if table == [] then map[]
    else
      var last := table[|table| - 1];
      Invert(table[..|table| - 1])[last.1 := last.0]
  }

  predicate IsProperty(t: Tree, path: string, name: string) {
    path in t.nodes && name in t.nodes[path].properties && !IsPhandleName(name)
  }

  function PropertyAt(t: Tree, path: string, name: string): Property
    requires IsProperty(t, path, name)
  {
    t.nodes[path].properties[name]
  }

  /** A property as a report prints it, if it is there. */
  function PrintedAt(t: Tree, path: string, name: string): Side {
    if IsProperty(t, path, name) then Printed(RawText(PropertyAt(t, path, name))) else Absent
  }

  /** The two canonical forms of a property present on both sides. */
  function LeftValue(l: Tree, r: Tree, path: string, name: string): Canonical
    requires IsProperty(l, path, name) && IsProperty(r, path, name)
  {
    CanonicalValue(l, PropertyAt(l, path, name), Some(PropertyAt(r, path, name)))
  }

  predicate IsPropertyDifference(l: Tree, r: Tree, path: string, name: string, d: Difference) {
    var inLeft, inRight := IsProperty(l, path, name), IsProperty(r, path, name);
    && path in l.nodes && path in r.nodes && d.path == path && d.property == Some(name)
    && match d.kind
       case PropertyRemoved =>
         inLeft && !inRight && d.left == Printed(RawText(PropertyAt(l, path, name))) && d.right == Absent
       case PropertyAdded =>
         inRight && !inLeft && d.left == Absent && d.right == Printed(RawText(PropertyAt(r, path, name)))
       case PropertyChanged =>
         && inLeft && inRight
         && d.left == Value(LeftValue(l, r, path, name)) && d.right == Value(LeftValue(r, l, path, name))
         && d.left != d.right
       case _ => false
  }

  predicate IsNodeDifference(l: Tree, r: Tree, d: Difference) {
    var lp, rp := Invert(l.phandles), Invert(r.phandles);
    match d.kind
    case NodeRemoved => d.path in l.nodes && d.path !in r.nodes && d == Difference(NodeRemoved, d.path, None, Absent, Absent)
    case NodeAdded => d.path in r.nodes && d.path !in l.nodes && d == Difference(NodeAdded, d.path, None, Absent, Absent)
    case PhandleRemoved =>
      d.path in lp && d.path !in rp
      && d == Difference(PhandleRemoved, d.path, Some("phandle"), Phandle(lp[d.path]), Absent)
    case PhandleAdded =>
      d.path in rp && d.path !in lp
      && d == Difference(PhandleAdded, d.path, Some("phandle"), Absent, Phandle(rp[d.path]))
    case _ => false
  }

  predicate IsDifference(l: Tree, r: Tree, d: Difference) {
    IsNodeDifference(l, r, d)
    || (d.property.Some? && IsPropertyDifference(l, r, d.path, d.property.value, d))
  }

  predicate IsRenumbered(l: Tree, r: Tree, x: Renumbering) {
    var lp, rp := Invert(l.phandles), Invert(r.phandles);
    x.path in lp && x.path in rp && x.left == lp[x.path] && x.right == rp[x.path] && x.left != x.right
  }

  /** The evidence left by one property present on both sides. */
  function PairEvidence(l: Tree, r: Tree, path: string, name: string): set<Evidence>
    requires IsProperty(l, path, name) && IsProperty(r, path, name)
  {
    var p, q := PropertyAt(l, path, name), PropertyAt(r, path, name);
    ValueEvidence(l, p, Some(q)) + ValueEvidence(r, q, Some(p))
  }

  ghost predicate IsUnresolved(l: Tree, r: Tree, e: Evidence) {
    exists path, name ::
      IsProperty(l, path, name) && IsProperty(r, path, name) && e in PairEvidence(l, r, path, name)
  }

  // ----- the order of the report -----

  function PropertyText(d: Difference): string {
    if d.property.Some? then d.property.value else ""
  }

  /** The source's sort key without the kind, which never decides. */
  predicate DifferenceLess(a: Difference, b: Difference) {
    StrLess(a.path, b.path) || (a.path == b.path && StrLess(PropertyText(a), PropertyText(b)))
  }

  predicate RenumberingLess(a: Renumbering, b: Renumbering) {
    StrLess(a.path, b.path)
  }

  lemma OrdersAreAsymmetric()
    ensures Asymmetric(DifferenceLess) && Asymmetric(RenumberingLess)
  {
    forall x, y | DifferenceLess(x, y) ensures !DifferenceLess(y, x) {
      if StrLess(x.path, y.path) {
        StrLessAsymmetric(x.path, y.path);
      } else {
        StrLessAsymmetric(PropertyText(x), PropertyText(y));
        assert !StrLess(y.path, x.path);
      }
    }
    forall x, y | RenumberingLess(x, y) ensures !RenumberingLess(y, x) {
      StrLessAsymmetric(x.path, y.path);
    }
  }

  /** There is at most one difference for a path and a property. */
  lemma OneDifferencePerKey(l: Tree, r: Tree, a: Difference, b: Difference)
    requires IsDifference(l, r, a) && IsDifference(l, r, b)
    requires a.path == b.path && a.property == b.property
    ensures a == b
  {
  }

  /** Two different differences are ordered by path and property text alone. */
  lemma DifferencesAreOrdered(l: Tree, r: Tree, a: Difference, b: Difference)
    requires IsDifference(l, r, a) && IsDifference(l, r, b) && a != b
    ensures DifferenceLess(a, b) || DifferenceLess(b, a)
  {
    hide IsPropertyDifference;
    StrLessTotal(a.path, b.path);
    StrLessTotal(PropertyText(a), PropertyText(b));
    if a.path == b.path && PropertyText(a) == PropertyText(b) {
      SameKeySameProperty(l, r, a, b);
      OneDifferencePerKey(l, r, a, b);
    }
  }

  lemma SameKeySameProperty(l: Tree, r: Tree, a: Difference, b: Difference)
    requires IsDifference(l, r, a) && IsDifference(l, r, b)
    requires a.path == b.path && PropertyText(a) == PropertyText(b)
    ensures a.property == b.property
  {
  }

  // ----- the comparison is determined -----

  ghost predicate IsComparison(c: Comparison, l: Tree, r: Tree) {
    && c.left == l && c.right == r
    && StrictlySorted(c.differences, DifferenceLess)
    && (forall d :: d in c.differences <==> IsDifference(l, r, d))
    && StrictlySorted(c.renumbered, RenumberingLess)
    && (forall x :: x in c.renumbered <==> IsRenumbered(l, r, x))
    && (forall e :: e in c.unresolved <==> IsUnresolved(l, r, e))
  }

  lemma ComparisonIsUnique(c: Comparison, d: Comparison, l: Tree, r: Tree)
    requires IsComparison(c, l, r) && IsComparison(d, l, r)
    ensures c == d
  {
    OrdersAreAsymmetric();
    SortedListingUnique(c.differences, d.differences, DifferenceLess);
    SortedListingUnique(c.renumbered, d.renumbered, RenumberingLess);
  }

  // ----- symmetry -----

  function MirrorKind(k: Kind): Kind {
    match k
    case NodeRemoved => NodeAdded
    case NodeAdded => NodeRemoved
    case PhandleRemoved => PhandleAdded
    case PhandleAdded => PhandleRemoved
    case PropertyRemoved => PropertyAdded
    case PropertyAdded => PropertyRemoved
    case PropertyChanged => PropertyChanged
  }

  function Mirror(d: Difference): Difference {
    Difference(MirrorKind(d.kind), d.path, d.property, d.right, d.left)
  }

  function MirrorRenumbering(x: Renumbering): Renumbering {
    Renumbering(x.path, x.right, x.left)
  }

  function MirrorComparison(c: Comparison): Comparison {
    Comparison(c.right, c.left, Map(Mirror, c.differences), Map(MirrorRenumbering, c.renumbered), c.unresolved)
  }

  lemma MirroredDifference(l: Tree, r: Tree, d: Difference)
    ensures IsDifference(l, r, d) <==> IsDifference(r, l, Mirror(d))
    ensures Mirror(Mirror(d)) == d
  {
  }

  lemma MapMembers<T, U>(f: T -> U, g: U -> T, s: seq<T>, y: U)
    requires forall x | x in s :: g(f(x)) == x
    requires f(g(y)) == y
    ensures y in Map(f, s) <==> g(y) in s
  {
    if g(y) in s {
      var i :| 0 <= i < |s| && s[i] == g(y);
      assert Map(f, s)[i] == y;
    }
    if y in Map(f, s) {
      var i :| 0 <= i < |s| && Map(f, s)[i] == y;
      assert s[i] in s;
    }
  }

  /** Swapping the trees mirrors the whole comparison, order included. */
  lemma ComparisonIsSymmetric(c: Comparison, l: Tree, r: Tree)
    requires IsComparison(c, l, r)
    ensures IsComparison(MirrorComparison(c), r, l)
  {
    hide IsDifference, IsRenumbered, PairEvidence;
    var m := MirrorComparison(c);
    forall i, j | 0 <= i < j < |m.differences| ensures DifferenceLess(m.differences[i], m.differences[j]) {
      assert DifferenceLess(c.differences[i], c.differences[j]);
      assert m.differences[i] == Mirror(c.differences[i]) && m.differences[j] == Mirror(c.differences[j]);
    }
    forall i, j | 0 <= i < j < |m.renumbered| ensures RenumberingLess(m.renumbered[i], m.renumbered[j]) {
      assert RenumberingLess(c.renumbered[i], c.renumbered[j]);
      assert m.renumbered[i] == MirrorRenumbering(c.renumbered[i]);
      assert m.renumbered[j] == MirrorRenumbering(c.renumbered[j]);
    }
    forall d ensures d in m.differences <==> IsDifference(r, l, d) {
      MirroredDifference(r, l, d);
      MapMembers(Mirror, Mirror, c.differences, d);
    }
    forall x ensures x in m.renumbered <==> IsRenumbered(r, l, x) {
      MirroredRenumbering(r, l, x);
      MapMembers(MirrorRenumbering, MirrorRenumbering, c.renumbered, x);
    }
    forall e ensures e in m.unresolved <==> IsUnresolved(r, l, e) {
      MirroredEvidence(l, r, e);
      MirroredEvidence(r, l, e);
    }
  }

  lemma MirroredRenumbering(l: Tree, r: Tree, x: Renumbering)
    ensures IsRenumbered(l, r, x) <==> IsRenumbered(r, l, MirrorRenumbering(x))
  {
  }

  lemma MirroredEvidence(l: Tree, r: Tree, e: Evidence)
    ensures IsUnresolved(l, r, e) ==> IsUnresolved(r, l, e)
  {
    hide IsProperty, ValueEvidence;
    if IsUnresolved(l, r, e) {
      var path, name :|
        IsProperty(l, path, name) && IsProperty(r, path, name) && e in PairEvidence(l, r, path, name);
      assert e in PairEvidence(r, l, path, name);
    }
  }

  /** The verdict does not depend on which tree is called left. */
  lemma StatusIsSymmetric(c: Comparison, d: Comparison, l: Tree, r: Tree)
    requires IsComparison(c, l, r) && IsComparison(d, r, l)
    ensures d == MirrorComparison(c)
    ensures StatusOf(d) == StatusOf(c) && d.unresolved == c.unresolved
  {
    ComparisonIsSymmetric(c, l, r);
    ComparisonIsUnique(MirrorComparison(c), d, r, l);
  }
}
