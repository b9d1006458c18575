/**
 What the comparison must not see: how references are spelled and how phandles are numbered.
 Both rest on an exact description of an empty difference list.
 */
module DtsInvariance {
  import opened Wrappers
  import opened Ordering
  import opened DtsValues
  import opened DtsTree
  import opened DtsCanonical
  import opened DtsCompare
  import opened DtsMeaning

  /** Every property is stored under its own name, as the parser does. */
  predicate Keyed(t: Tree) {
    forall path | path in t.nodes ::
      forall name | name in t.nodes[path].properties :: t.nodes[path].properties[name].name == name
  }

  ghost predicate PropertiesAgree(l: Tree, r: Tree) {
    forall path, name ::
      && (IsProperty(l, path, name) <==> IsProperty(r, path, name))
      && (IsProperty(l, path, name) && IsProperty(r, path, name) ==>
            ValuesAgree(l, PropertyAt(l, path, name), r, PropertyAt(r, path, name)))
  }

  /** The two trees have the same nodes, the same referable nodes and agreeing properties. */
  ghost predicate SameTrees(l: Tree, r: Tree) {
    && l.nodes.Keys == r.nodes.Keys
    && Invert(l.phandles).Keys == Invert(r.phandles).Keys
    && PropertiesAgree(l, r)
  }

  ghost predicate NoDifference(l: Tree, r: Tree) {
    forall d :: !IsDifference(l, r, d)
  }

  lemma EmptyExactly(c: Comparison, l: Tree, r: Tree)
    requires IsComparison(c, l, r)
    ensures c.differences == [] <==> NoDifference(l, r)
  {
    hide IsDifference;
    if c.differences != [] {
      assert c.differences[0] in c.differences;
    }
  }

  lemma SameTreesDifferNowhere(l: Tree, r: Tree)
    requires Keyed(l) && Keyed(r) && SameTrees(l, r)
    ensures NoDifference(l, r)
  {
    hide ValuesAgree, CanonicalValue, RawText;
    forall d ensures !IsDifference(l, r, d) {
      if d.property.Some? && IsPropertyDifference(l, r, d.path, d.property.value, d) {
        var name := d.property.value;
        assert IsProperty(l, d.path, name) && IsProperty(r, d.path, name);
        ValueMeaning(l, PropertyAt(l, d.path, name), r, PropertyAt(r, d.path, name));
      }
    }
  }

  lemma DifferingNowhereIsSame(l: Tree, r: Tree)
    requires Keyed(l) && Keyed(r) && NoDifference(l, r)
    ensures SameTrees(l, r)
  {
    hide ValuesAgree, CanonicalValue, RawText;
    var lp, rp := Invert(l.phandles), Invert(r.phandles);
    forall p ensures p in l.nodes <==> p in r.nodes {
      assert !IsDifference(l, r, Difference(NodeRemoved, p, None, Absent, Absent));
      assert !IsDifference(l, r, Difference(NodeAdded, p, None, Absent, Absent));
    }
    forall p ensures p in lp <==> p in rp {
      if p in lp {
        assert !IsDifference(l, r, Difference(PhandleRemoved, p, Some("phandle"), Phandle(lp[p]), Absent));
      }
      if p in rp {
        assert !IsDifference(l, r, Difference(PhandleAdded, p, Some("phandle"), Absent, Phandle(rp[p])));
      }
    }
    forall path, name
      ensures IsProperty(l, path, name) <==> IsProperty(r, path, name)
      ensures IsProperty(l, path, name) && IsProperty(r, path, name) ==>
        ValuesAgree(l, PropertyAt(l, path, name), r, PropertyAt(r, path, name))
    {
      SamePropertyEverywhere(l, r, path, name);
    }
  }

  lemma SamePropertyEverywhere(l: Tree, r: Tree, path: string, name: string)
    requires Keyed(l) && Keyed(r) && NoDifference(l, r) && l.nodes.Keys == r.nodes.Keys
    ensures IsProperty(l, path, name) <==> IsProperty(r, path, name)
    ensures IsProperty(l, path, name) && IsProperty(r, path, name) ==>
      ValuesAgree(l, PropertyAt(l, path, name), r, PropertyAt(r, path, name))
  {
    hide ValuesAgree, CanonicalValue, RawText;
    var inLeft, inRight := IsProperty(l, path, name), IsProperty(r, path, name);
    var removed := Difference(PropertyRemoved, path, Some(name), PrintedAt(l, path, name), Absent);
    var added := Difference(PropertyAdded, path, Some(name), Absent, PrintedAt(r, path, name));
    assert !IsDifference(l, r, removed) && !IsDifference(l, r, added);
    assert !IsPropertyDifference(l, r, path, name, removed) && !IsPropertyDifference(l, r, path, name, added);
    if inLeft && inRight {
      ValueMeaning(l, PropertyAt(l, path, name), r, PropertyAt(r, path, name));
      var d := Difference(PropertyChanged, path, Some(name),
                          Value(LeftValue(l, r, path, name)), Value(LeftValue(r, l, path, name)));
      assert !IsDifference(l, r, d);
      assert !IsPropertyDifference(l, r, path, name, d);
    }
  }

  /** The comparison lists no difference exactly when the trees are the same up to spelling. */
  lemma NoDifferenceExactly(c: Comparison, l: Tree, r: Tree)
    requires IsComparison(c, l, r) && Keyed(l) && Keyed(r)
    ensures c.differences == [] <==> SameTrees(l, r)
  {
    hide IsComparison, SameTrees, NoDifference, Keyed;
    EmptyExactly(c, l, r);
    if SameTrees(l, r) {
      SameTreesDifferNowhere(l, r);
    }
    if NoDifference(l, r) {
      DifferingNowhereIsSame(l, r);
    }
  }

  /** A verdict of equivalence: the same trees, no parser caveat and no unresolved reference. */
  lemma EquivalentExactly(c: Comparison, l: Tree, r: Tree)
    requires IsComparison(c, l, r) && Keyed(l) && Keyed(r)
    ensures StatusOf(c) == EQUIVALENT <==>
      && SameTrees(l, r)
      && !HasCaveats(l) && !HasCaveats(r)
      && (forall e :: !IsUnresolved(l, r, e))
  {
    hide SameTrees, Keyed, IsUnresolved, IsDifference, IsRenumbered;
    NoDifferenceExactly(c, l, r);
    assert c.unresolved == {} <==> forall e :: e !in c.unresolved;
  }

  // ----- labels for numbers -----

  lemma Reflexive(t: Tree)
    ensures SameTrees(t, t)
  {
    hide NumericRefPosition, Lookup, Flatten;
    forall path, name | IsProperty(t, path, name)
      ensures ValuesAgree(t, PropertyAt(t, path, name), t, PropertyAt(t, path, name))
    {
    }
  }

  /**
   The right value writes some of the left value's local phandle numbers as labels, which the right
   tree resolves to the nodes owning them; the labels of both sides resolve alike.
   */
  predicate LabelsForNumbers(t: Tree, u: Tree, p: seq<Atom>, q: seq<Atom>) {
    && |p| == |q|
    && (forall i | 0 <= i < |p| ::
          || (p[i] == q[i] && (p[i].RefName? ==> Resolve(t, p[i].name) == Resolve(u, p[i].name)))
          || (p[i].Number? && q[i].RefName? && Lookup(t.phandles, p[i].n).Some?
              && Resolve(u, q[i].name) == Lookup(t.phandles, p[i].n)))
  }

  /** The right property is the left one with some of its local phandle numbers written as labels. */
  predicate Relabels(t: Tree, u: Tree, p: Property, q: Property) {
    && p.name == q.name && p.isBoolean == q.isBoolean
    && LabelsForNumbers(t, u, Flatten(p.parts), Flatten(q.parts))
    && ((IsCellValue(p) && IsCellValue(q)) || SameKinds(p.parts, q.parts))
  }

  /**
   Writing any set of local phandle numbers as labels leaves the canonical form alone, in either
   direction and, for values of cells, whatever the angle-bracket grouping, except in the sentinel trap.
   */
  lemma LabelNumberInterchange(t: Tree, u: Tree, p: Property, q: Property)
    requires u.phandles == t.phandles && Relabels(t, u, p, q)
    ensures CanonicalValue(t, p, Some(q)) == CanonicalValue(u, q, Some(p)) <==>
            p.isBoolean || !SentinelTrap(p.name, Flatten(p.parts), Flatten(q.parts))
  {
    hide CanonicalValue, NumericRefPosition, SentinelTrap, IsCellValue, SameKinds;
    var pp, qq := Flatten(p.parts), Flatten(q.parts);
    forall i | 0 <= i < |pp|
      ensures CellsAgree(t, pp[i], u, qq[i], NumericRefPosition(p.name, i))
    {
    }
    ValueMeaning(t, p, u, q);
  }

  lemma UnknownProperty()
    ensures !LooksLikeRef("x")
  {
  }

  /** The trap is real: a sentinel in an unknown property, and a label beside it on one side. */
  lemma SentinelTrapHappens()
    ensures
      var t := Tree("t", map[], [(5, "/a")], map["a" := "/a"], [], [], [], []);
      var p := Property("x", [Cells([Number(5), Number(SENTINEL)])], false, 1);
      var q := Property("x", [Cells([RefName("a"), Number(SENTINEL)])], false, 1);
      Relabels(t, t, p, q) && CanonicalValue(t, p, Some(q)) != CanonicalValue(t, q, Some(p))
  {
    hide CanonicalValue, LooksLikeRef;
    var t := Tree("t", map[], [(5, "/a")], map["a" := "/a"], [], [], [], []);
    var pp, qq := [Number(5), Number(SENTINEL)], [RefName("a"), Number(SENTINEL)];
    var p := Property("x", [Cells(pp)], false, 1);
    var q := Property("x", [Cells(qq)], false, 1);
    FlattenOne(pp);
    FlattenOne(qq);
    assert Lookup(t.phandles, 5) == Some("/a");
    assert IsCellValue(p) && IsCellValue(q);
    LabelNumberInterchange(t, t, p, q);
    UnknownProperty();
    assert qq[0].RefName? && HasRef(qq) && !HasRef(pp);
    assert pp[1] == Number(SENTINEL) && qq[1] == Number(SENTINEL);
    assert SentinelTrap("x", pp, qq);
  }

  lemma FlattenOne(atoms: seq<Atom>)
    ensures Flatten([Cells(atoms)]) == atoms
  {
    assert [Cells(atoms)][1..] == [];
    assert atoms + [] == atoms;
  }
}
