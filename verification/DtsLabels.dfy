/**
 Spelling references as labels. A whole tree against the same tree with some phandle numbers written
 as labels: when the comparison tells them apart, and what becomes of unresolved references.
 */
module DtsLabels {
  import opened Wrappers
  import opened Ordering
  import opened DtsValues
  import opened DtsTree
  import opened DtsCanonical
  import opened DtsCompare
  import opened DtsMeaning
  import opened DtsInvariance
  import opened DtsVerdict

  /**
   `u` is `t` with some local phandle numbers written as labels, under a label table of its own;
   phandle properties are untouched.
   */
  ghost predicate Relabelled(t: Tree, u: Tree) {
    && u == t.(nodes := u.nodes, labels := u.labels) && u.nodes.Keys == t.nodes.Keys
    && (forall path | path in t.nodes ::
          && u.nodes[path].properties.Keys == t.nodes[path].properties.Keys
          && forall name | name in t.nodes[path].properties ::
               RelabelsAs(t, u, name, t.nodes[path].properties[name], u.nodes[path].properties[name]))
  }

  predicate RelabelsAs(t: Tree, u: Tree, name: string, p: Property, q: Property) {
    if IsPhandleName(name) then p == q else Relabels(t, u, p, q)
  }

  /** The phandle table read off the relabelled nodes is the tree's own. */
  lemma RelabelledIsIndexed(t: Tree, u: Tree)
    requires Relabelled(t, u)
    ensures BuildPhandles(u.nodes) == BuildPhandles(t.nodes)
  {
    hide AddPhandles, Relabels;
    var paths := SortedSet(t.nodes.Keys);
    forall p | p in paths ensures p in u.nodes && p in t.nodes && SamePhandleProperties(u.nodes[p], t.nodes[p]) {
      forall name | name in PHANDLE_NAMES && name in t.nodes[p].properties
        ensures u.nodes[p].properties[name] == t.nodes[p].properties[name]
      {
        assert RelabelsAs(t, u, name, t.nodes[p].properties[name], u.nodes[p].properties[name]);
      }
    }
    OnlyPhandlesMatter([], u.nodes, t.nodes, paths);
  }

  /** Some property meets the sentinel trap. */
  ghost predicate Trapped(t: Tree, u: Tree) {
    exists path, name :: IsProperty(t, path, name) && IsProperty(u, path, name) && TrappedAt(t, u, path, name)
  }

  predicate TrappedAt(t: Tree, u: Tree, path: string, name: string)
    requires IsProperty(t, path, name) && IsProperty(u, path, name)
  {
    var p, q := PropertyAt(t, path, name), PropertyAt(u, path, name);
    !p.isBoolean && SentinelTrap(name, Flatten(p.parts), Flatten(q.parts))
  }

  lemma SamePropertiesRelabelled(t: Tree, u: Tree, path: string, name: string)
    requires Relabelled(t, u)
    ensures IsProperty(u, path, name) <==> IsProperty(t, path, name)
    ensures IsProperty(t, path, name) ==> Relabels(t, u, PropertyAt(t, path, name), PropertyAt(u, path, name))
  {
    hide Relabels;
    if IsProperty(t, path, name) {
      assert RelabelsAs(t, u, name, PropertyAt(t, path, name), PropertyAt(u, path, name));
    }
  }

  lemma AgreeExactly(t: Tree, u: Tree, path: string, name: string)
    requires Relabelled(t, u) && Keyed(t) && IsProperty(t, path, name) && IsProperty(u, path, name)
    ensures ValuesAgree(t, PropertyAt(t, path, name), u, PropertyAt(u, path, name)) <==> !TrappedAt(t, u, path, name)
  {
    hide Relabels, SentinelTrap, CanonicalValue, ValuesAgree;
    SamePropertiesRelabelled(t, u, path, name);
    var p, q := PropertyAt(t, path, name), PropertyAt(u, path, name);
    LabelNumberInterchange(t, u, p, q);
    RelabelsKeepsName(t, u, p, q);
    ValueMeaning(t, p, u, q);
  }

  lemma RelabelsKeepsName(t: Tree, u: Tree, p: Property, q: Property)
    requires Relabels(t, u, p, q)
    ensures p.name == q.name && p.isBoolean == q.isBoolean
  {
  }

  lemma SameTreesExactly(t: Tree, u: Tree)
    requires Relabelled(t, u) && Keyed(t)
    ensures SameTrees(t, u) <==> !Trapped(t, u)
  {
    hide Keyed, Relabelled, ValuesAgree, TrappedAt, IsProperty, PropertyAt;
    assert u.nodes.Keys == t.nodes.Keys && u.phandles == t.phandles by {
      RelabelledTables(t, u);
    }
    forall path, name
      ensures IsProperty(t, path, name) <==> IsProperty(u, path, name)
      ensures IsProperty(t, path, name) && IsProperty(u, path, name) ==>
        (ValuesAgree(t, PropertyAt(t, path, name), u, PropertyAt(u, path, name)) <==> !TrappedAt(t, u, path, name))
    {
      SamePropertiesRelabelled(t, u, path, name);
      if IsProperty(t, path, name) {
        AgreeExactly(t, u, path, name);
      }
    }
  }

  lemma RelabelledTables(t: Tree, u: Tree)
    requires Relabelled(t, u)
    ensures u == t.(nodes := u.nodes, labels := u.labels) && u.nodes.Keys == t.nodes.Keys
  {
  }

  lemma RelabelledIsKeyed(t: Tree, u: Tree)
    requires Relabelled(t, u) && Keyed(t)
    ensures Keyed(u)
  {
    hide LabelsForNumbers, IsCellValue, SameKinds;
    forall path, name | path in u.nodes && name in u.nodes[path].properties
      ensures u.nodes[path].properties[name].name == name
    {
      assert RelabelsAs(t, u, name, t.nodes[path].properties[name], u.nodes[path].properties[name]);
    }
  }

  // ----- evidence -----

  /** The same file and the same phandles; labels may differ. */
  predicate SameTables(t: Tree, u: Tree) {
    u.source == t.source && u.phandles == t.phandles
  }

  /** A cell spelled alike on both sides: its evidence depends on the context only where the trap does. */
  lemma SameCellEvidence(t: Tree, u: Tree, a: Atom, i: nat, c: Context, d: Context)
    requires SameTables(t, u) && (a.RefName? ==> Resolve(t, a.name) == Resolve(u, a.name))
    requires c.name == d.name && c.explicitPeer == d.explicitPeer && (c.explicitPeer ==> a.RefName?)
    requires c.useRefContext == d.useRefContext || a != Number(SENTINEL)
    requires NumericRefPosition(c.name, i) ==> c.useRefContext && d.useRefContext
    ensures CellEvidence(t, a, i, c) == CellEvidence(u, a, i, d)
  {
    hide NumericRefPosition, Lookup;
  }

  /** A number and the label that stands for it leave no evidence against each other. */
  lemma NoEvidenceBetween(t: Tree, u: Tree, n: int, label0: string, i: nat, c: Context, d: Context)
    requires Lookup(t.phandles, n).Some? && Resolve(u, label0) == Lookup(t.phandles, n)
    requires c.explicitPeer && c.useRefContext
    ensures CellEvidence(t, Number(n), i, c) == {} && CellEvidence(u, RefName(label0), i, d) == {}
  {
    hide NumericRefPosition, Lookup;
  }

  /** Against itself such a number leaves evidence only as the sentinel. */
  lemma SelfEvidence(t: Tree, n: int, i: nat, c: Context)
    requires !c.explicitPeer && Lookup(t.phandles, n).Some? && n != SENTINEL
    ensures CellEvidence(t, Number(n), i, c) == {}
  {
    hide NumericRefPosition, Lookup;
  }

  /** Cell by cell, away from the trap: both spellings leave what the original leaves, or a lone sentinel less. */
  lemma CellEvidenceRelabelled(t: Tree, u: Tree, name: string, pp: seq<Atom>, qq: seq<Atom>, i: nat)
    requires SameTables(t, u) && LabelsForNumbers(t, u, pp, qq) && !SentinelTrap(name, pp, qq) && i < |pp|
    ensures
      var self := EvidenceAt(t, name, pp, pp, 0, i);
      var left, right := EvidenceAt(t, name, qq, pp, 0, i), EvidenceAt(u, name, pp, qq, 0, i);
      && left == right && (left == self || left == {})
      && (Lookup(t.phandles, SENTINEL).None? ==> left == self)
  {
    if NumericRefPosition(name, i) {
      RefPositionLooksLikeRef(name, i);
    }
    hide NumericRefPosition, LooksLikeRef, Lookup, CellEvidence;
    LabelsStay(t, u, pp, qq);
    var c, own := ContextAt(name, qq, i), ContextAt(name, pp, i);
    if pp[i] == qq[i] {
      SameCellEvidence(t, t, pp[i], i, c, own);
      SameCellEvidence(t, u, pp[i], i, own, own);
    } else {
      assert HasRef(qq);
      NoEvidenceBetween(t, u, pp[i].n, qq[i].name, i, c, own);
      if pp[i].n != SENTINEL {
        SelfEvidence(t, pp[i].n, i, own);
      }
    }
  }

  lemma LabelsStay(t: Tree, u: Tree, pp: seq<Atom>, qq: seq<Atom>)
    requires LabelsForNumbers(t, u, pp, qq)
    ensures |pp| == |qq| && (HasRef(pp) ==> HasRef(qq))
  {
    if i :| 0 <= i < |pp| && pp[i].RefName? {
      assert qq[i].RefName?;
    }
  }

  lemma EvidenceRelabelled(t: Tree, u: Tree, p: Property, q: Property)
    requires SameTables(t, u) && Relabels(t, u, p, q)
    requires p.isBoolean || !SentinelTrap(p.name, Flatten(p.parts), Flatten(q.parts))
    ensures
      var both, self := ValueEvidence(t, p, Some(q)) + ValueEvidence(u, q, Some(p)), ValueEvidence(t, p, Some(p));
      both <= self && (Lookup(t.phandles, SENTINEL).None? ==> both == self)
  {
    hide SentinelTrap, EvidenceAt, IsCellValue, SameKinds, LabelsForNumbers, Lookup;
    var pp, qq, name := Flatten(p.parts), Flatten(q.parts), p.name;
    if !p.isBoolean {
      LabelsStay(t, u, pp, qq);
      forall i | 0 <= i < |pp|
        ensures EvidenceAt(t, name, qq, pp, 0, i) == EvidenceAt(u, name, pp, qq, 0, i)
        ensures EvidenceAt(t, name, qq, pp, 0, i) <= EvidenceAt(t, name, pp, pp, 0, i)
        ensures Lookup(t.phandles, SENTINEL).None? ==>
          EvidenceAt(t, name, qq, pp, 0, i) == EvidenceAt(t, name, pp, pp, 0, i)
      {
        CellEvidenceRelabelled(t, u, name, pp, qq, i);
      }
    }
  }

  /** In the trap the side that reads the sentinel as external says so. */
  lemma TrapLeavesEvidence(t: Tree, u: Tree, p: Property, q: Property)
    requires Relabels(t, u, p, q) && !p.isBoolean && SentinelTrap(p.name, Flatten(p.parts), Flatten(q.parts))
    ensures ExternalSentinel(t.source, p.name) in ValueEvidence(t, p, Some(q))
  {
    var pp, qq, name := Flatten(p.parts), Flatten(q.parts), p.name;
    LabelsStay(t, u, pp, qq);
    var i :| 0 <= i < |pp| && i < |qq| && pp[i] == Number(SENTINEL) && qq[i] == Number(SENTINEL);
    if NumericRefPosition(name, i) {
      RefPositionLooksLikeRef(name, i);
    }
    hide NumericRefPosition, LooksLikeRef, Lookup, HasRef, IsCellValue, SameKinds, SentinelTrap, LabelsForNumbers;
    assert ExternalSentinel(t.source, name) in EvidenceAt(t, name, qq, pp, 0, i);
  }

  // ----- the whole tree -----

  lemma PairRelabelled(t: Tree, u: Tree, path: string, name: string)
    requires Relabelled(t, u) && Keyed(t) && IsProperty(t, path, name) && IsProperty(u, path, name)
    ensures TrappedAt(t, u, path, name) ==> ExternalSentinel(t.source, name) in PairEvidence(t, u, path, name)
    ensures !TrappedAt(t, u, path, name) ==>
      && PairEvidence(t, u, path, name) <= PairEvidence(t, t, path, name)
      && (Lookup(t.phandles, SENTINEL).None? ==> PairEvidence(t, u, path, name) == PairEvidence(t, t, path, name))
  {
    var p, q := PropertyAt(t, path, name), PropertyAt(u, path, name);
    assert p.name == name;
    SamePropertiesRelabelled(t, u, path, name);
    RelabelledTables(t, u);
    hide Relabelled, Keyed, SentinelTrap, ValueEvidence, Relabels, Lookup;
    RelabelsKeepsName(t, u, p, q);
    if TrappedAt(t, u, path, name) {
      TrapLeavesEvidence(t, u, p, q);
    } else {
      EvidenceRelabelled(t, u, p, q);
    }
  }

  /**
   Comparing a tree with its relabelled spelling: there is no difference if and only if no property
   meets the sentinel trap, and no renumbering. Away from the trap no reference becomes unresolved, and
   while no node has the sentinel for its phandle the verdict is the one of the tree against itself; in
   the trap it is DIFFERENT and incomplete.
   */
  lemma LabelsAreInvisible(t: Tree, u: Tree, c: Comparison, self: Comparison)
    requires Relabelled(t, u) && Keyed(t) && IsComparison(c, t, u) && IsComparison(self, t, t)
    ensures c.differences == [] <==> !Trapped(t, u)
    ensures c.renumbered == []
    ensures Trapped(t, u) ==> StatusOf(c) == DIFFERENT_INCOMPLETE
    ensures !Trapped(t, u) ==>
      && c.unresolved <= self.unresolved
      && (Lookup(t.phandles, SENTINEL).None? ==> c.unresolved == self.unresolved && StatusOf(c) == StatusOf(self))
  {
    RelabelledIsKeyed(t, u);
    RelabelledTables(t, u);
    SameTreesExactly(t, u);
    Reflexive(t);
    NoDifferenceExactly(c, t, u);
    NoDifferenceExactly(self, t, t);
    hide Relabelled, Keyed, SameTrees, IsDifference, PairEvidence, TrappedAt, Invert, Lookup, IsProperty, PropertyAt;
    assert c.renumbered == [] by {
      SomeMember(c.renumbered);
    }
    forall path, name | IsProperty(t, path, name) || IsProperty(u, path, name)
      ensures IsProperty(t, path, name) && IsProperty(u, path, name)
      ensures TrappedAt(t, u, path, name) ==> ExternalSentinel(t.source, name) in PairEvidence(t, u, path, name)
      ensures !TrappedAt(t, u, path, name) ==>
        && PairEvidence(t, u, path, name) <= PairEvidence(t, t, path, name)
        && (Lookup(t.phandles, SENTINEL).None? ==> PairEvidence(t, u, path, name) == PairEvidence(t, t, path, name))
    {
      SamePropertiesRelabelled(t, u, path, name);
      PairRelabelled(t, u, path, name);
    }
    if Trapped(t, u) {
      var path, name :| IsProperty(t, path, name) && IsProperty(u, path, name) && TrappedAt(t, u, path, name);
      assert ExternalSentinel(t.source, name) in c.unresolved;
    }
  }

  // ----- the sentinel as a local phandle -----

  const SENTINEL_TREE: Tree := Tree("t", map[], [(SENTINEL, "/a")], map["a" := "/a"], [], [], [], [])

  const NUMBERS: seq<Atom> := [Number(1), Number(SENTINEL)]

  const LABELS: seq<Atom> := [Number(1), RefName("a")]

  /**
   Then the verdicts can part: a number reads as an external reference against itself, and as the node
   against its label.
   */
  lemma LocalSentinelLosesEvidence()
    ensures
      var t := SENTINEL_TREE;
      var p, q := Property("clocks", [Cells(NUMBERS)], false, 1), Property("clocks", [Cells(LABELS)], false, 1);
      && Relabels(t, t, p, q) && ExternalSentinel("t", "clocks") in ValueEvidence(t, p, Some(p))
      && ValueEvidence(t, p, Some(q)) == {} && ValueEvidence(t, q, Some(p)) == {}
  {
    var t := SENTINEL_TREE;
    FlattenOne(NUMBERS);
    FlattenOne(LABELS);
    assert Lookup(t.phandles, SENTINEL) == Some("/a") && Lookup(t.phandles, 1) == None;
    ClocksIsTuple();
    hide LooksLikeRef, NumericRefPosition, Lookup;
    assert ExternalSentinel("t", "clocks") in EvidenceAt(t, "clocks", NUMBERS, NUMBERS, 0, 1);
    assert LABELS[1].RefName? && HasRef(LABELS);
    assert forall i | 0 <= i < 2 :: EvidenceAt(t, "clocks", LABELS, NUMBERS, 0, i) == {};
    assert forall i | 0 <= i < 2 :: EvidenceAt(t, "clocks", NUMBERS, LABELS, 0, i) == {};
  }

  /** The provider comes first in a tuple, and its arguments are not references. */
  lemma ClocksIsTuple()
    ensures LooksLikeRef("clocks") && !NumericRefPosition("clocks", 1)
  {
    assert "clocks" in TUPLE_PROPERTIES;
    assert "clocks"[0] != "pinctrl-"[0];
    assert forall x | x in PURE_REF_PROPERTIES :: |x| == 6 ==> x[0] != 'c';
  }
}
