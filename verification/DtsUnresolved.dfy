/**
 Which references a comparison leaves unresolved, read off the cells, the labels and the phandles
 of the two trees alone.
 */
module DtsUnresolved {
  import opened Wrappers
  import opened DtsValues
  import opened DtsTree
  import opened DtsCanonical
  import opened DtsCompare

  predicate Owned(t: Tree, n: int) {
    exists i | 0 <= i < |t.phandles| :: t.phandles[i].0 == n
  }

  /** The cell at this index is a label. */
  predicate LabelAt(cells: seq<Atom>, i: nat) {
    i < |cells| && cells[i].RefName?
  }

  /** A property is read as holding references when its name says so or its peer holds a label. */
  predicate ReadAsReference(name: string, peer: seq<Atom>) {
    LooksLikeRef(name) || exists k | 0 <= k < |peer| :: peer[k].RefName?
  }

  /** The number at this index is the number of a local node and is read as that node. */
  predicate NamesLocalNode(t: Tree, name: string, cells: seq<Atom>, peer: seq<Atom>, i: nat)
    requires i < |cells| && cells[i].Number?
  {
    Owned(t, cells[i].n) && (LabelAt(peer, i) || NumericRefPosition(name, i))
  }

  /** What the cell at this index leaves unresolved: a label, the sentinel, or an undefined number. */
  predicate LeavesUnresolved(t: Tree, name: string, cells: seq<Atom>, peer: seq<Atom>, i: nat, e: Evidence) {
    && i < |cells|
    && match cells[i]
       case RefName(l) => l !in t.labels && e == UnresolvedLabel(t.source, l, name)
       case Number(n) =>
         if n == 0xFFFF_FFFF then
           && ReadAsReference(name, peer) && !NamesLocalNode(t, name, cells, peer, i)
           && e == ExternalSentinel(t.source, name)
         else
           n != 0 && !Owned(t, n) && LabelAt(peer, i) && e == UndefinedNumber(t.source, n, name)
       case _ => false
  }

  /** A cell of a property of `t` that `u` has as well, the phandle properties excepted. */
  predicate UnresolvedCell(t: Tree, u: Tree, path: string, name: string, i: nat, e: Evidence) {
    && path in t.nodes && path in u.nodes && name !in {"phandle", "linux,phandle"}
    && name in t.nodes[path].properties && name in u.nodes[path].properties
    && var p, q := t.nodes[path].properties[name], u.nodes[path].properties[name];
       !p.isBoolean && LeavesUnresolved(t, p.name, Flatten(p.parts), Flatten(q.parts), i, e)
  }

  lemma OneCell(t: Tree, name: string, cells: seq<Atom>, peer: seq<Atom>, i: nat, e: Evidence)
    requires i < |cells|
    ensures e in CellEvidence(t, cells[i], i, ContextAt(name, peer, i)) <==>
            LeavesUnresolved(t, name, cells, peer, i, e)
  {
    hide LooksLikeRef, NumericRefPosition;
    if cells[i].Number? {
      assert Lookup(t.phandles, cells[i].n).Some? <==> Owned(t, cells[i].n);
      hide Lookup, Owned;
      assert LabelAt(peer, i) ==> HasRef(peer);
    }
  }

  /** Some cell of a value leaves the evidence. */
  ghost predicate SomeCell(t: Tree, p: Property, q: Property, e: Evidence) {
    !p.isBoolean && exists i: nat :: LeavesUnresolved(t, p.name, Flatten(p.parts), Flatten(q.parts), i, e)
  }

  lemma OneProperty(t: Tree, p: Property, q: Property, e: Evidence)
    ensures e in ValueEvidence(t, p, Some(q)) <==> SomeCell(t, p, q, e)
  {
    hide CellEvidence, LeavesUnresolved, ContextAt;
    var cells, peer := Flatten(p.parts), Flatten(q.parts);
    var all := CellsEvidence(t, p.name, peer, cells, 0);
    if e in all {
      var i :| 0 <= i < |cells| && e in EvidenceAt(t, p.name, peer, cells, 0, i);
      OneCell(t, p.name, cells, peer, i, e);
    }
    if i: nat :| LeavesUnresolved(t, p.name, cells, peer, i, e) {
      HasCell(t, p.name, cells, peer, i, e);
      OneCell(t, p.name, cells, peer, i, e);
      assert e in EvidenceAt(t, p.name, peer, cells, 0, i);
      assert e in all;
    }
  }

  lemma HasCell(t: Tree, name: string, cells: seq<Atom>, peer: seq<Atom>, i: nat, e: Evidence)
    requires LeavesUnresolved(t, name, cells, peer, i, e)
    ensures i < |cells|
  {
  }

  lemma SidesOf(l: Tree, r: Tree, path: string, name: string, e: Evidence)
    ensures (exists i: nat :: UnresolvedCell(l, r, path, name, i, e)) <==>
      && IsProperty(l, path, name) && IsProperty(r, path, name)
      && SomeCell(l, PropertyAt(l, path, name), PropertyAt(r, path, name), e)
  {
    hide LeavesUnresolved;
    if IsProperty(l, path, name) && IsProperty(r, path, name) {
      var p, q := PropertyAt(l, path, name), PropertyAt(r, path, name);
      if SomeCell(l, p, q, e) {
        var i: nat :| LeavesUnresolved(l, p.name, Flatten(p.parts), Flatten(q.parts), i, e);
        assert UnresolvedCell(l, r, path, name, i, e);
      }
    }
  }

  lemma UnresolvedSides(l: Tree, r: Tree, e: Evidence)
    ensures IsUnresolved(l, r, e) <==>
      exists path, name, i: nat :: UnresolvedCell(l, r, path, name, i, e) || UnresolvedCell(r, l, path, name, i, e)
  {
    hide ValueEvidence, UnresolvedCell, SomeCell, IsProperty;
    if IsUnresolved(l, r, e) {
      var path, name :| IsProperty(l, path, name) && IsProperty(r, path, name) && e in PairEvidence(l, r, path, name);
      PairSides(l, r, path, name, e);
    }
    if path, name, i: nat :| UnresolvedCell(l, r, path, name, i, e) || UnresolvedCell(r, l, path, name, i, e) {
      PairSides(l, r, path, name, e);
    }
  }

  lemma PairSides(l: Tree, r: Tree, path: string, name: string, e: Evidence)
    ensures
      (exists i: nat :: UnresolvedCell(l, r, path, name, i, e) || UnresolvedCell(r, l, path, name, i, e)) <==>
      IsProperty(l, path, name) && IsProperty(r, path, name) && e in PairEvidence(l, r, path, name)
  {
    hide ValueEvidence, UnresolvedCell, SomeCell, IsProperty;
    SidesOf(l, r, path, name, e);
    SidesOf(r, l, path, name, e);
    if IsProperty(l, path, name) && IsProperty(r, path, name) {
      OneProperty(l, PropertyAt(l, path, name), PropertyAt(r, path, name), e);
      OneProperty(r, PropertyAt(r, path, name), PropertyAt(l, path, name), e);
    }
  }

  /**
   A comparison reports exactly the cells of common properties that are a label missing from their
   own tree; the sentinel, read as a reference and not naming a local node; or an unowned number
   other than 0 and the sentinel, opposite a label. One such cell keeps the verdict from EQUIVALENT.
   */
  lemma UnresolvedExactly(c: Comparison, l: Tree, r: Tree)
    requires IsComparison(c, l, r)
    ensures forall e :: e in c.unresolved <==>
      exists path, name, i: nat :: UnresolvedCell(l, r, path, name, i, e) || UnresolvedCell(r, l, path, name, i, e)
    ensures forall path, name, i: nat, e ::
      UnresolvedCell(l, r, path, name, i, e) || UnresolvedCell(r, l, path, name, i, e) ==> StatusOf(c) != EQUIVALENT
  {
    hide UnresolvedCell, IsUnresolved, IsDifference, IsRenumbered;
    forall e
      ensures e in c.unresolved <==>
        exists path, name, i: nat :: UnresolvedCell(l, r, path, name, i, e) || UnresolvedCell(r, l, path, name, i, e)
    {
      UnresolvedSides(l, r, e);
    }
    forall path, name, i: nat, e | UnresolvedCell(l, r, path, name, i, e) || UnresolvedCell(r, l, path, name, i, e)
      ensures StatusOf(c) != EQUIVALENT
    {
      assert e in c.unresolved;
    }
  }
}
