/**
 Renumbering every phandle. A tree and its renumbered copy have no difference, the report
 lists exactly the nodes whose number changed, and the verdict is the one the tree gets
 against itself.
 */
module DtsRenumber {
  import opened Wrappers
  import opened Ordering
  import opened DtsValues
  import opened DtsTree
  import opened DtsCanonical
  import opened DtsCompare
  import opened DtsMeaning
  import opened DtsInvariance

  // ----- the renumbered tree -----

  /** A phandle's own cells change, and so does every reference-position cell naming a phandle. */
  function RenumberAtom(t: Tree, r: int -> int, name: string, a: Atom, index: nat): Atom {
    if a.Number? && (IsPhandleName(name) || (NumericRefPosition(name, index) && Lookup(t.phandles, a.n).Some?))
    then Number(r(a.n))
    else a
  }

  function RenumberAtoms(t: Tree, r: int -> int, name: string, atoms: seq<Atom>, index: nat): seq<Atom> {
    seq(|atoms|, i requires 0 <= i < |atoms| => RenumberAtom(t, r, name, atoms[i], index + i))
  }

  function RenumberParts(t: Tree, r: int -> int, name: string, parts: seq<Part>, index: nat): seq<Part> {
    if parts == [] then []
    else if parts[0].Cells? then
      [Cells(RenumberAtoms(t, r, name, parts[0].atoms, index))]
        + RenumberParts(t, r, name, parts[1..], index + |parts[0].atoms|)
    else [parts[0]] + RenumberParts(t, r, name, parts[1..], index)
  }

  function RenumberProperty(t: Tree, r: int -> int, p: Property): Property {
    p.(parts := RenumberParts(t, r, p.name, p.parts, 0))
  }

  function RenumberNodes(t: Tree, r: int -> int): Nodes {
    map path | path in t.nodes ::
      t.nodes[path].(properties :=
        map name | name in t.nodes[path].properties :: RenumberProperty(t, r, t.nodes[path].properties[name]))
  }

  /** The copy, with its phandle table built from the renumbered nodes. */
  function Renumber(t: Tree, r: int -> int): Tree {
    var nodes := RenumberNodes(t, r);
    t.(nodes := nodes, phandles := BuildPhandles(nodes).0)
  }

  /** The tree's phandle table is the one its nodes define. */
  predicate Indexed(t: Tree) {
    t.phandles == BuildPhandles(t.nodes).0
  }

  ghost predicate Injective(r: int -> int) {
    forall x, y :: r(x) == r(y) ==> x == y
  }

  /** A cell that names no phandle, in a reference position, comes to name none. */
  ghost predicate CellUncaptured(t: Tree, r: int -> int, name: string, a: Atom, i: nat) {
    a.Number? && NumericRefPosition(name, i) && Lookup(t.phandles, a.n).None? ==>
      forall m :: Lookup(t.phandles, m).Some? ==> r(m) != a.n
  }

  ghost predicate Uncaptured(t: Tree, r: int -> int, name: string, atoms: seq<Atom>) {
    forall i | 0 <= i < |atoms| :: CellUncaptured(t, r, name, atoms[i], i)
  }

  /** The renumbering captures no cell of a property with a value. */
  ghost predicate NoCapture(t: Tree, r: int -> int) {
    forall path, name | IsProperty(t, path, name) :: UncapturedAt(t, r, path, name)
  }

  ghost predicate UncapturedAt(t: Tree, r: int -> int, path: string, name: string)
    requires IsProperty(t, path, name)
  {
    var p := PropertyAt(t, path, name);
    p.isBoolean || Uncaptured(t, r, name, Flatten(p.parts))
  }

  // ----- cells and parts -----

  lemma {:induction false} RenumberedParts(t: Tree, r: int -> int, name: string, parts: seq<Part>, index: nat)
    ensures Flatten(RenumberParts(t, r, name, parts, index)) == RenumberAtoms(t, r, name, Flatten(parts), index)
    ensures SameKinds(parts, RenumberParts(t, r, name, parts, index))
  {
    hide RenumberAtom;
    if parts != [] {
      var head, n := HeadAtoms(parts[0]), CellCount(parts[0]);
      var rest := RenumberParts(t, r, name, parts[1..], index + n);
      var all := RenumberParts(t, r, name, parts, index);
      RenumberedParts(t, r, name, parts[1..], index + n);
      assert all == [all[0]] + rest && all[1..] == rest;
      SameKindsStep(parts, all);
      assert HeadAtoms(all[0]) == RenumberAtoms(t, r, name, head, index);
      FlattenHead(parts);
      FlattenHead(all);
      RenumberConcat(t, r, name, head, Flatten(parts[1..]), index);
    }
  }

  lemma RenumberConcat(t: Tree, r: int -> int, name: string, a: seq<Atom>, b: seq<Atom>, index: nat)
    ensures RenumberAtoms(t, r, name, a + b, index) ==
            RenumberAtoms(t, r, name, a, index) + RenumberAtoms(t, r, name, b, index + |a|)
  {
    hide RenumberAtom;
    var c := RenumberAtoms(t, r, name, a + b, index);
    var d := RenumberAtoms(t, r, name, a, index) + RenumberAtoms(t, r, name, b, index + |a|);
    forall i | 0 <= i < |c| ensures c[i] == d[i] {
      if i >= |a| {
        assert (a + b)[i] == b[i - |a|] && index + i == index + |a| + (i - |a|);
      }
    }
  }

  // ----- the phandle table -----

  function MapTable(r: int -> int, table: seq<(int, string)>): seq<(int, string)> {
    seq(|table|, i requires 0 <= i < |table| => (r(table[i].0), table[i].1))
  }

  lemma {:induction false} LookupRenumbered(r: int -> int, table: seq<(int, string)>, n: int)
    requires Injective(r)
    ensures Lookup(MapTable(r, table), r(n)) == Lookup(table, n)
  {
    if table != [] {
      assert MapTable(r, table)[1..] == MapTable(r, table[1..]);
      LookupRenumbered(r, table[1..], n);
    }
  }

  /** A number names nothing in the renumbered table exactly when no number of the table is sent to it. */
  lemma LookupUncaptured(r: int -> int, table: seq<(int, string)>, n: int)
    requires Injective(r)
    ensures Lookup(MapTable(r, table), n).None? <==> forall m :: Lookup(table, m).Some? ==> r(m) != n
  {
    var mapped := MapTable(r, table);
    if forall m :: Lookup(table, m).Some? ==> r(m) != n {
      forall i | 0 <= i < |mapped| ensures mapped[i].0 != n {
        assert table[i].0 == table[i].0;
        assert Lookup(table, table[i].0).Some?;
      }
    } else {
      var m :| Lookup(table, m).Some? && r(m) == n;
      LookupRenumbered(r, table, m);
    }
  }

  lemma DirectNumbersRenumbered(t: Tree, r: int -> int, p: Property)
    requires IsPhandleName(p.name)
    ensures |DirectNumbers(RenumberProperty(t, r, p))| == |DirectNumbers(p)|
    ensures forall i | 0 <= i < |DirectNumbers(p)| ::
      DirectNumbers(RenumberProperty(t, r, p))[i] == r(DirectNumbers(p)[i])
  {
    RenumberedParts(t, r, p.name, p.parts, 0);
    var a, b := Flatten(p.parts), Flatten(RenumberProperty(t, r, p).parts);
    assert forall i | 0 <= i < |a| :: b[i].Number? == a[i].Number?;
    assert AllNumbers(a) <==> forall i | 0 <= i < |a| :: a[i].Number?;
    assert AllNumbers(b) <==> forall i | 0 <= i < |b| :: b[i].Number?;
  }

  lemma AddPhandleRenumbered(
      t: Tree, r: int -> int, table: seq<(int, string)>, node: Node, node': Node, path: string, name: string)
    requires Injective(r) && IsPhandleName(name)
    requires node'.properties.Keys == node.properties.Keys
    requires name in node.properties ==>
      node.properties[name].name == name && node'.properties[name] == RenumberProperty(t, r, node.properties[name])
    ensures AddPhandle(MapTable(r, table), node', path, name).0 == MapTable(r, AddPhandle(table, node, path, name).0)
  {
    hide RenumberProperty, DirectNumbers, Lookup;
    if name in node.properties {
      var p := node.properties[name];
      DirectNumbersRenumbered(t, r, p);
      BooleanKept(t, r, p);
      var numbers := DirectNumbers(p);
      if |numbers| == 1 {
        LookupRenumbered(r, table, numbers[0]);
      }
    }
  }

  lemma BooleanKept(t: Tree, r: int -> int, p: Property)
    ensures RenumberProperty(t, r, p).isBoolean == p.isBoolean && RenumberProperty(t, r, p).name == p.name
  {
  }

  lemma {:induction false} AddPhandlesRenumbered(t: Tree, r: int -> int, table: seq<(int, string)>, paths: seq<string>)
    requires Injective(r) && Keyed(t)
    requires forall p | p in paths :: p in t.nodes
    ensures AddPhandles(MapTable(r, table), RenumberNodes(t, r), paths).0 ==
            MapTable(r, AddPhandles(table, t.nodes, paths).0)
    decreases |paths|
  {
    if paths != [] {
      hide AddPhandle, RenumberProperty;
      var path := paths[0];
      var node, node' := t.nodes[path], RenumberNodes(t, r)[path];
      var (t1, _) := AddPhandle(table, node, path, PHANDLE_NAMES[0]);
      var (t2, _) := AddPhandle(t1, node, path, PHANDLE_NAMES[1]);
      AddPhandleRenumbered(t, r, table, node, node', path, PHANDLE_NAMES[0]);
      AddPhandleRenumbered(t, r, t1, node, node', path, PHANDLE_NAMES[1]);
      AddPhandlesRenumbered(t, r, t2, paths[1..]);
    }
  }

  lemma TableRenumbered(t: Tree, r: int -> int)
    requires Injective(r) && Keyed(t) && Indexed(t)
    ensures Renumber(t, r).phandles == MapTable(r, t.phandles)
  {
    hide AddPhandles;
    AddPhandlesRenumbered(t, r, [], SortedSet(t.nodes.Keys));
    assert MapTable(r, []) == [];
    assert RenumberNodes(t, r).Keys == t.nodes.Keys;
  }

  lemma {:induction false} InvertRenumbered(r: int -> int, table: seq<(int, string)>)
    ensures Invert(MapTable(r, table)).Keys == Invert(table).Keys
    ensures forall p | p in Invert(table) :: Invert(MapTable(r, table))[p] == r(Invert(table)[p])
    decreases |table|
  {
    if table != [] {
      var k := |table| - 1;
      assert MapTable(r, table)[..k] == MapTable(r, table[..k]);
      InvertRenumbered(r, table[..k]);
    }
  }

  // ----- one property -----

  /** A cell agrees with its renumbered copy exactly when it is not captured. */
  lemma CellRenumbered(t: Tree, r: int -> int, name: string, a: Atom, i: nat)
    requires Injective(r) && Keyed(t) && Indexed(t) && !IsPhandleName(name)
    ensures
      var b := RenumberAtom(t, r, name, a, i);
      && (b.RefName? <==> a.RefName?)
      && (CellsAgree(t, a, Renumber(t, r), b, NumericRefPosition(name, i)) <==> CellUncaptured(t, r, name, a, i))
  {
    TableRenumbered(t, r);
    hide Renumber, NumericRefPosition, Lookup;
    KeepsLabels(t, r);
    if a.Number? && NumericRefPosition(name, i) {
      if Lookup(t.phandles, a.n).Some? {
        LookupRenumbered(r, t.phandles, a.n);
      } else {
        LookupUncaptured(r, t.phandles, a.n);
      }
    }
  }

  lemma KeepsLabels(t: Tree, r: int -> int)
    ensures Renumber(t, r).labels == t.labels && Renumber(t, r).source == t.source
    ensures HasCaveats(Renumber(t, r)) == HasCaveats(t)
  {
  }

  lemma SameRefs(t: Tree, r: int -> int, name: string, atoms: seq<Atom>)
    ensures
      var other := RenumberAtoms(t, r, name, atoms, 0);
      && HasRef(other) == HasRef(atoms)
      && forall i :: ExplicitAt(other, i) == ExplicitAt(atoms, i)
  {
    var other := RenumberAtoms(t, r, name, atoms, 0);
    assert forall i | 0 <= i < |atoms| :: other[i].RefName? == atoms[i].RefName?;
  }

  lemma PropertyRenumbered(t: Tree, r: int -> int, p: Property)
    requires Injective(r) && Keyed(t) && Indexed(t) && !IsPhandleName(p.name)
    ensures ValuesAgree(t, p, Renumber(t, r), RenumberProperty(t, r, p)) <==>
            p.isBoolean || Uncaptured(t, r, p.name, Flatten(p.parts))
  {
    hide Renumber, RenumberAtom, CellsAgree, NumericRefPosition, CellUncaptured, Keyed, Indexed;
    var q := RenumberProperty(t, r, p);
    var pp, qq := Flatten(p.parts), Flatten(q.parts);
    RenumberedParts(t, r, p.name, p.parts, 0);
    SameRefs(t, r, p.name, pp);
    forall i | 0 <= i < |pp|
      ensures CellsAgree(t, pp[i], Renumber(t, r), qq[i], NumericRefPosition(p.name, i))
        <==> CellUncaptured(t, r, p.name, pp[i], i)
    {
      CellRenumbered(t, r, p.name, pp[i], i);
    }
  }

  /** Without a peer label a number leaves evidence only as an unplaced sentinel. */
  lemma NumberEvidence(t: Tree, n: int, i: nat, c: Context)
    requires !c.explicitPeer
    ensures CellEvidence(t, Number(n), i, c) ==
      if n == SENTINEL && c.useRefContext && !(Lookup(t.phandles, n).Some? && NumericRefPosition(c.name, i))
      then {ExternalSentinel(t.source, c.name)} else {}
  {
    hide NumericRefPosition, Lookup;
  }

  lemma OtherEvidence(t: Tree, t': Tree, a: Atom, i: nat, c: Context)
    requires !a.Number? && t'.labels == t.labels && t'.source == t.source
    ensures CellEvidence(t', a, i, c) == CellEvidence(t, a, i, c)
  {
    hide NumericRefPosition, Lookup;
  }

  lemma CellEvidenceRenumbered(t: Tree, r: int -> int, name: string, atoms: seq<Atom>, i: nat, c: Context)
    requires Injective(r) && Keyed(t) && Indexed(t) && !IsPhandleName(name)
    requires i < |atoms| && Uncaptured(t, r, name, atoms)
    requires c.name == name && (c.explicitPeer ==> atoms[i].RefName?)
    ensures CellEvidence(Renumber(t, r), RenumberAtom(t, r, name, atoms[i], i), i, c) == CellEvidence(t, atoms[i], i, c)
  {
    KeepsLabels(t, r);
    TableRenumbered(t, r);
    hide Renumber, NumericRefPosition, Lookup, CellEvidence, Keyed, Indexed;
    var a, b, t' := atoms[i], RenumberAtom(t, r, name, atoms[i], i), Renumber(t, r);
    if !a.Number? {
      OtherEvidence(t, t', a, i, c);
    } else {
      NumberEvidence(t, a.n, i, c);
      NumberEvidence(t', b.n, i, c);
      if NumericRefPosition(name, i) && Lookup(t.phandles, a.n).Some? {
        LookupRenumbered(r, t.phandles, a.n);
      } else if NumericRefPosition(name, i) {
        assert CellUncaptured(t, r, name, atoms[i], i);
        LookupUncaptured(r, t.phandles, a.n);
      }
    }
  }

  lemma EvidenceRenumbered(t: Tree, r: int -> int, p: Property)
    requires Injective(r) && Keyed(t) && Indexed(t) && !IsPhandleName(p.name)
    requires p.isBoolean || Uncaptured(t, r, p.name, Flatten(p.parts))
    ensures
      var q := RenumberProperty(t, r, p);
      && ValueEvidence(t, p, Some(q)) == ValueEvidence(t, p, Some(p))
      && ValueEvidence(Renumber(t, r), q, Some(p)) == ValueEvidence(t, p, Some(p))
  {
    hide Renumber, RenumberAtom, CellEvidence, NumericRefPosition, LooksLikeRef, Uncaptured;
    if p.isBoolean {
      return;
    }
    var t' := Renumber(t, r);
    var q := RenumberProperty(t, r, p);
    var name := p.name;
    var pp, qq := Flatten(p.parts), Flatten(q.parts);
    RenumberedParts(t, r, name, p.parts, 0);
    SameRefs(t, r, name, pp);
    forall i | 0 <= i < |pp|
      ensures EvidenceAt(t, name, qq, pp, 0, i) == EvidenceAt(t, name, pp, pp, 0, i)
      ensures EvidenceAt(t', name, pp, qq, 0, i) == EvidenceAt(t, name, pp, pp, 0, i)
    {
      assert ContextAt(name, qq, i) == ContextAt(name, pp, i);
      CellEvidenceRenumbered(t, r, name, pp, i, ContextAt(name, pp, i));
      assert qq[i] == RenumberAtom(t, r, name, pp[i], i);
    }
    SameEvidence(t, name, qq, pp, t, name, pp, pp);
    SameEvidence(t', name, pp, qq, t, name, pp, pp);
  }

  lemma SameEvidence(
      t: Tree, name: string, peer: seq<Atom>, atoms: seq<Atom>,
      u: Tree, other: string, peer': seq<Atom>, atoms': seq<Atom>)
    requires |atoms| == |atoms'|
    requires forall i | 0 <= i < |atoms| ::
      EvidenceAt(t, name, peer, atoms, 0, i) == EvidenceAt(u, other, peer', atoms', 0, i)
    ensures CellsEvidence(t, name, peer, atoms, 0) == CellsEvidence(u, other, peer', atoms', 0)
  {
    hide EvidenceAt;
  }

  // ----- the whole tree -----

  lemma SamePropertiesRenumbered(t: Tree, r: int -> int, path: string, name: string)
    requires Keyed(t)
    ensures IsProperty(Renumber(t, r), path, name) <==> IsProperty(t, path, name)
    ensures IsProperty(t, path, name) ==>
      PropertyAt(Renumber(t, r), path, name) == RenumberProperty(t, r, PropertyAt(t, path, name))
      && PropertyAt(t, path, name).name == name
  {
  }

  lemma RenumberedIsKeyed(t: Tree, r: int -> int)
    requires Keyed(t)
    ensures Keyed(Renumber(t, r))
  {
  }

  lemma RenumberedKeys(t: Tree, r: int -> int)
    requires Keyed(t) && Indexed(t) && Injective(r)
    ensures Renumber(t, r).nodes.Keys == t.nodes.Keys
    ensures Invert(Renumber(t, r).phandles).Keys == Invert(t.phandles).Keys
  {
    hide Keyed, Indexed, Invert, BuildPhandles, RenumberProperty;
    TableRenumbered(t, r);
    InvertRenumbered(r, t.phandles);
  }

  lemma PropertyStaysExactly(t: Tree, r: int -> int, path: string, name: string)
    requires Keyed(t) && Indexed(t) && Injective(r)
    ensures IsProperty(Renumber(t, r), path, name) <==> IsProperty(t, path, name)
    ensures IsProperty(t, path, name) && IsProperty(Renumber(t, r), path, name) ==>
      (ValuesAgree(t, PropertyAt(t, path, name), Renumber(t, r), PropertyAt(Renumber(t, r), path, name))
       <==> UncapturedAt(t, r, path, name))
  {
    hide Renumber, ValuesAgree, RenumberProperty, Uncaptured, Keyed, Indexed, IsProperty;
    SamePropertiesRenumbered(t, r, path, name);
    if IsProperty(t, path, name) {
      IsPropertyName(t, path, name);
      PropertyRenumbered(t, r, PropertyAt(t, path, name));
    }
  }

  /** The copy is the same tree exactly when nothing is captured. */
  lemma RenumberedIsSame(t: Tree, r: int -> int)
    requires Keyed(t) && Indexed(t) && Injective(r)
    ensures SameTrees(t, Renumber(t, r)) <==> NoCapture(t, r)
  {
    hide Renumber, ValuesAgree, UncapturedAt, Keyed, Indexed, IsProperty, Invert, PropertyAt;
    RenumberedKeys(t, r);
    forall path, name
      ensures IsProperty(Renumber(t, r), path, name) <==> IsProperty(t, path, name)
      ensures IsProperty(t, path, name) && IsProperty(Renumber(t, r), path, name) ==>
        (ValuesAgree(t, PropertyAt(t, path, name), Renumber(t, r), PropertyAt(Renumber(t, r), path, name))
         <==> UncapturedAt(t, r, path, name))
    {
      PropertyStaysExactly(t, r, path, name);
    }
  }

  lemma SameUnresolved(t: Tree, r: int -> int, e: Evidence)
    requires Keyed(t) && Indexed(t) && Injective(r) && NoCapture(t, r)
    ensures IsUnresolved(t, Renumber(t, r), e) <==> IsUnresolved(t, t, e)
  {
    var t' := Renumber(t, r);
    hide Renumber, ValueEvidence, RenumberProperty, Uncaptured, Keyed, Indexed, IsProperty;
    forall path, name
      ensures IsProperty(t', path, name) <==> IsProperty(t, path, name)
      ensures IsProperty(t, path, name) && IsProperty(t', path, name) ==>
        PairEvidence(t, t', path, name) == PairEvidence(t, t, path, name)
    {
      SamePropertiesRenumbered(t, r, path, name);
      if IsProperty(t, path, name) {
        assert UncapturedAt(t, r, path, name);
        IsPropertyName(t, path, name);
        EvidenceRenumbered(t, r, PropertyAt(t, path, name));
      }
    }
  }

  lemma IsPropertyName(t: Tree, path: string, name: string)
    requires IsProperty(t, path, name)
    ensures !IsPhandleName(name)
  {
  }

  /**
   Comparing a tree with its renumbered copy: the renumbering table holds exactly the changed numbers;
   there is no difference if and only if the renumbering captures no cell, and then the verdict and
   the unresolved references are those of the tree against itself.
   */
  lemma RenumberingIsInvisible(t: Tree, r: int -> int, c: Comparison, self: Comparison)
    requires Keyed(t) && Indexed(t) && Injective(r)
    requires IsComparison(c, t, Renumber(t, r)) && IsComparison(self, t, t)
    ensures c.differences == [] <==> NoCapture(t, r)
    ensures forall x :: x in c.renumbered <==>
      var numbers := Invert(t.phandles);
      x.path in numbers && x.left == numbers[x.path] && x.right == r(x.left) && x.right != x.left
    ensures NoCapture(t, r) ==> c.unresolved == self.unresolved && StatusOf(c) == StatusOf(self)
  {
    var t' := Renumber(t, r);
    RenumberedIsSame(t, r);
    RenumberedIsKeyed(t, r);
    Reflexive(t);
    NoDifferenceExactly(c, t, t');
    NoDifferenceExactly(self, t, t);
    KeepsLabels(t, r);
    TableRenumbered(t, r);
    InvertRenumbered(r, t.phandles);
    hide Renumber, IsDifference, IsUnresolved, SameTrees, Keyed, Indexed, NoCapture;
    if NoCapture(t, r) {
      forall e ensures e in c.unresolved <==> e in self.unresolved {
        SameUnresolved(t, r, e);
      }
    }
  }
}
