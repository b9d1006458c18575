/**
 The canonical form of a property value: references become the path they name, and the
 grouping of cells into angle-bracket lists is forgotten.
 */
module DtsCanonical {
  import opened Wrappers
  import opened Affixes
  import opened DtsValues
  import opened DtsTree
  import DtsText

  datatype Cell =
    | Ref(path: string)
    | NullRef
    | Plain(n: int)
    | External
    | Undefined(n: int)
    | NoLabel
    | Text(text: string)

  datatype CPart =
    | CBoolean
    | CCells(cells: seq<Cell>)
    | CStrings(items: seq<string>)
    | CBytes(items: seq<string>)
    | CRaw(items: seq<string>)

  type Canonical = seq<CPart>

  /** A reference that could not be tied to a local node. */
  datatype Evidence =
    | UnresolvedLabel(source: string, text: string, property: string)
    | ExternalSentinel(source: string, property: string)
    | UndefinedNumber(source: string, n: int, property: string)

  const SENTINEL: int := 0xFFFF_FFFF

  // ----- which properties hold references -----

  const PURE_REF_PROPERTIES: set<string> := {
    "target", "interrupt-parent", "memory-region", "nvmem-cells", "operating-points-v2",
    "remote-endpoint", "backlight", "panel", "sound-dai", "link", "links", "ref", "refs"
  }

  const TUPLE_PROPERTIES: set<string> := {
    "gpios", "gpio", "clocks", "resets", "phys", "dmas", "iommus", "mboxes", "pwms",
    "io-channels", "power-domains"
  }

  /** `(?:^|[-,])word$`, without a final newline. */
  predicate LastWord(name: string, word: string) {
    name == word || EndsWith(name, "-" + word) || EndsWith(name, "," + word)
  }

  predicate PatternAtEnd(name: string) {
    || name == "pinctrl"
    || LastWord(name, "supply") || LastWord(name, "gpio") || LastWord(name, "gpios")
    || LastWord(name, "reset-gpios") || LastWord(name, "power-domain")
    || LastWord(name, "domain") || LastWord(name, "domains")
  }

  predicate LooksLikeRef(name: string) {
    || name in PURE_REF_PROPERTIES
    || "pinctrl-" <= name
    || name in TUPLE_PROPERTIES
    || EndsWith(name, "-supply") || EndsWith(name, "-gpio") || EndsWith(name, "-gpios")
    || EndsWith(name, "-reset-gpios") || EndsWith(name, "-power-domain")
    || PatternAtEnd(name) || PatternAtEnd(DtsText.DropFinalNewline(name))
  }

  predicate NumericRefPosition(name: string, index: nat) {
    || name in PURE_REF_PROPERTIES || "pinctrl-" <= name
    || (index == 0 && name in TUPLE_PROPERTIES)
  }

  /** A cell is only ever read as a bare numeric reference in a property that looks like one. */
  lemma RefPositionLooksLikeRef(name: string, index: nat)
    requires NumericRefPosition(name, index)
    ensures LooksLikeRef(name)
  {
  }

  // ----- one cell -----

  /** What the rest of the comparison knows about a cell: the peer's label, and the context. */
  datatype Context = Context(name: string, explicitPeer: bool, useRefContext: bool)

  function CanonicalCell(tree: Tree, a: Atom, index: nat, c: Context): Cell {
    match a
    case RefName(l) => if l in tree.labels then Ref(tree.labels[l]) else External
    case Number(n) =>
      var path := Lookup(tree.phandles, n);
      var positioned := c.useRefContext && (c.explicitPeer || NumericRefPosition(c.name, index));
      if path.Some? && positioned then Ref(path.value)
      else if n == 0 && positioned then NullRef
      else if n == SENTINEL && c.useRefContext then External
      else if c.explicitPeer && path.None? then Undefined(n)
      else Plain(n)
    case MissingLabel => NoLabel
    case RawAtom(t) => Text(t)
  }

  /** The message a cell adds to the unresolved list, if any. */
  function CellEvidence(tree: Tree, a: Atom, index: nat, c: Context): set<Evidence> {
    var cell := CanonicalCell(tree, a, index, c);
    if a.RefName? && cell.External? then {UnresolvedLabel(tree.source, a.name, c.name)}
    else if a.Number? && cell.External? then {ExternalSentinel(tree.source, c.name)}
    else if cell.Undefined? then {UndefinedNumber(tree.source, cell.n, c.name)}
    else {}
  }

  // ----- a property against its peer -----

  predicate HasRef(atoms: seq<Atom>) {
    exists i | 0 <= i < |atoms| :: atoms[i].RefName?
  }

  predicate ExplicitAt(peer: seq<Atom>, index: nat) {
    index < |peer| && peer[index].RefName?
  }

  function ContextAt(name: string, peer: seq<Atom>, index: nat): Context {
    Context(name, ExplicitAt(peer, index), LooksLikeRef(name) || HasRef(peer))
  }

  function CanonicalCells(tree: Tree, name: string, peer: seq<Atom>, atoms: seq<Atom>, index: nat): seq<Cell> {
    seq(|atoms|, i requires 0 <= i < |atoms| =>
      CanonicalCell(tree, atoms[i], index + i, ContextAt(name, peer, index + i)))
  }

  function EvidenceAt(tree: Tree, name: string, peer: seq<Atom>, atoms: seq<Atom>, index: nat, i: nat): set<Evidence>
    requires i < |atoms|
  {
    CellEvidence(tree, atoms[i], index + i, ContextAt(name, peer, index + i))
  }

  function CellsEvidence(tree: Tree, name: string, peer: seq<Atom>, atoms: seq<Atom>, index: nat): set<Evidence> {
    set i, e | 0 <= i < |atoms| && e in EvidenceAt(tree, name, peer, atoms, index, i) :: e
  }

  function LowerChar(c: char): char {
    if 'A' <= c <= 'Z' then 'a' + (c - 'A') else c
  }

  function Lower(s: string): string {
    Map(LowerChar, s)
  }

  /** The parts of a value with the index of their first cell. */
  function CanonicalParts(tree: Tree, name: string, peer: seq<Atom>, parts: seq<Part>, index: nat): Canonical {
    if parts == [] then []
    else
      match parts[0]
      case Cells(atoms) =>
        [CCells(CanonicalCells(tree, name, peer, atoms, index))]
          + CanonicalParts(tree, name, peer, parts[1..], index + |atoms|)
      case Strings(items) => [CStrings(items)] + CanonicalParts(tree, name, peer, parts[1..], index)
      case Bytes(items) => [CBytes(Map(Lower, items))] + CanonicalParts(tree, name, peer, parts[1..], index)
      case Raw(items) => [CRaw(items)] + CanonicalParts(tree, name, peer, parts[1..], index)
  }

  function AllCells(c: Canonical): seq<Cell> {
    if c == [] then []
    else (if c[0].CCells? then c[0].cells else []) + AllCells(c[1..])
  }

  predicate OnlyCells(c: Canonical) {
    forall i | 0 <= i < |c| :: c[i].CCells?
  }

  /** Cell lists are merged into one unless the value holds anything else, or no cell at all. */
  function Regroup(c: Canonical): Canonical {
    if AllCells(c) != [] && OnlyCells(c) then [CCells(AllCells(c))] else c
  }

  function PeerAtoms(peer: Option<Property>): seq<Atom> {
    if peer.Some? then Flatten(peer.value.parts) else []
  }

  function CanonicalValue(tree: Tree, p: Property, peer: Option<Property>): Canonical {
    if p.isBoolean then [CBoolean]
    else Regroup(CanonicalParts(tree, p.name, PeerAtoms(peer), p.parts, 0))
  }

  function ValueEvidence(tree: Tree, p: Property, peer: Option<Property>): set<Evidence> {
    if p.isBoolean then {} else CellsEvidence(tree, p.name, PeerAtoms(peer), Flatten(p.parts), 0)
  }

  // ----- the cells of a value, whatever their grouping -----

  lemma CellsConcat(tree: Tree, name: string, peer: seq<Atom>, a: seq<Atom>, b: seq<Atom>, index: nat)
    ensures |CanonicalCells(tree, name, peer, a, index)| == |a|
    ensures CanonicalCells(tree, name, peer, a + b, index) ==
            CanonicalCells(tree, name, peer, a, index) + CanonicalCells(tree, name, peer, b, index + |a|)
  {
    hide CanonicalCell, ContextAt;
    var c := CanonicalCells(tree, name, peer, a + b, index);
    var d := CanonicalCells(tree, name, peer, a, index) + CanonicalCells(tree, name, peer, b, index + |a|);
    forall i | 0 <= i < |c| ensures c[i] == d[i] {
      if i >= |a| {
        assert (a + b)[i] == b[i - |a|] && index + i == index + |a| + (i - |a|);
      }
    }
  }

  lemma PartsHead(tree: Tree, name: string, peer: seq<Atom>, parts: seq<Part>, index: nat)
    requires parts != []
    ensures
      var here := if parts[0].Cells? then parts[0].atoms else [];
      var all := CanonicalParts(tree, name, peer, parts, index);
      && all != [] && all == [all[0]] + CanonicalParts(tree, name, peer, parts[1..], index + |here|)
      && (all[0].CCells? <==> parts[0].Cells?)
      && (all[0].CCells? ==> all[0].cells == CanonicalCells(tree, name, peer, here, index))
  {
    hide CanonicalCells, Lower;
  }

  lemma PartsStep(tree: Tree, name: string, peer: seq<Atom>, parts: seq<Part>, index: nat)
    requires parts != []
    ensures
      var here := if parts[0].Cells? then parts[0].atoms else [];
      && Flatten(parts) == here + Flatten(parts[1..])
      && AllCells(CanonicalParts(tree, name, peer, parts, index)) ==
         CanonicalCells(tree, name, peer, here, index)
           + AllCells(CanonicalParts(tree, name, peer, parts[1..], index + |here|))
  {
    assert CanonicalCells(tree, name, peer, [], index) == [];
    hide CanonicalCells, Lower;
    var here := if parts[0].Cells? then parts[0].atoms else [];
    var rest := CanonicalParts(tree, name, peer, parts[1..], index + |here|);
    var all := CanonicalParts(tree, name, peer, parts, index);
    PartsHead(tree, name, peer, parts, index);
    hide CanonicalParts;
    assert all[1..] == rest;
  }

  lemma {:induction false} CellsOfParts(tree: Tree, name: string, peer: seq<Atom>, parts: seq<Part>, index: nat)
    ensures AllCells(CanonicalParts(tree, name, peer, parts, index)) ==
            CanonicalCells(tree, name, peer, Flatten(parts), index)
  {
    if parts != [] {
      hide CanonicalCells, CanonicalParts, AllCells, Flatten;
      var here := if parts[0].Cells? then parts[0].atoms else [];
      PartsStep(tree, name, peer, parts, index);
      CellsOfParts(tree, name, peer, parts[1..], index + |here|);
      CellsConcat(tree, name, peer, here, Flatten(parts[1..]), index);
    }
  }

  lemma {:induction false} KindsOfParts(tree: Tree, name: string, peer: seq<Atom>, parts: seq<Part>, index: nat)
    ensures |CanonicalParts(tree, name, peer, parts, index)| == |parts|
    ensures forall i | 0 <= i < |parts| ::
      CanonicalParts(tree, name, peer, parts, index)[i].CCells? <==> parts[i].Cells?
  {
    hide CanonicalCells;
    if parts != [] {
      KindsOfParts(tree, name, peer, parts[1..], index + CellCount(parts[0]));
    }
  }

  predicate IsCellValue(p: Property) {
    !p.isBoolean && Flatten(p.parts) != [] && forall x | x in p.parts :: x.Cells?
  }

  /** A value made of cells has one canonical form whatever its angle-bracket grouping. */
  lemma CellValueIsGroupingFree(tree: Tree, p: Property, peer: Option<Property>)
    requires IsCellValue(p)
    ensures CanonicalValue(tree, p, peer) ==
            [CCells(CanonicalCells(tree, p.name, PeerAtoms(peer), Flatten(p.parts), 0))]
  {
    CellsOfParts(tree, p.name, PeerAtoms(peer), p.parts, 0);
    KindsOfParts(tree, p.name, PeerAtoms(peer), p.parts, 0);
    assert forall i | 0 <= i < |p.parts| :: p.parts[i] in p.parts;
  }

  // ----- the loop of the source -----

  method CanonicalProperty(tree: Tree, p: Property, peer: Option<Property>, unresolved: set<Evidence>)
    returns (value: Canonical, found: set<Evidence>)
    ensures value == CanonicalValue(tree, p, peer)
    ensures found == unresolved + ValueEvidence(tree, p, peer)
  {
    found := unresolved;
    if p.isBoolean {
      return [CBoolean], unresolved;
    }
    var peerAtoms := PeerAtoms(peer);
    var parts: Canonical := [];
    var cellIndex := 0;
    for k := 0 to |p.parts|
      invariant cellIndex == |Flatten(p.parts[..k])|
      invariant parts == CanonicalParts(tree, p.name, peerAtoms, p.parts[..k], 0)
      invariant found == unresolved + CellsEvidence(tree, p.name, peerAtoms, Flatten(p.parts[..k]), 0)
    {
      AddPart(tree, p.name, peerAtoms, p.parts, k);
      match p.parts[k] {
        case Cells(atoms) =>
          var cells: seq<Cell> := [];
          ghost var before := found;
          for i := 0 to |atoms|
            invariant cells == CanonicalCells(tree, p.name, peerAtoms, atoms[..i], cellIndex)
            invariant found == before + CellsEvidence(tree, p.name, peerAtoms, atoms[..i], cellIndex)
          {
            var c := ContextAt(p.name, peerAtoms, cellIndex + i);
            AddCell(tree, p.name, peerAtoms, atoms, i, cellIndex);
            cells := cells + [CanonicalCell(tree, atoms[i], cellIndex + i, c)];
            found := found + CellEvidence(tree, atoms[i], cellIndex + i, c);
          }
          assert atoms[..|atoms|] == atoms;
          cellIndex := cellIndex + |atoms|;
          parts := parts + [CCells(cells)];
        case Strings(items) => parts := parts + [CStrings(items)];
        case Bytes(items) => parts := parts + [CBytes(Map(Lower, items))];
        case Raw(items) => parts := parts + [CRaw(items)];
      }
    }
    assert p.parts[..|p.parts|] == p.parts;
    value := Regroup(parts);
  }

  lemma AddCell(tree: Tree, name: string, peer: seq<Atom>, atoms: seq<Atom>, i: nat, index: nat)
    requires i < |atoms|
    ensures CanonicalCells(tree, name, peer, atoms[..i + 1], index) ==
            CanonicalCells(tree, name, peer, atoms[..i], index)
              + [CanonicalCell(tree, atoms[i], index + i, ContextAt(name, peer, index + i))]
    ensures CellsEvidence(tree, name, peer, atoms[..i + 1], index) ==
            CellsEvidence(tree, name, peer, atoms[..i], index)
              + CellEvidence(tree, atoms[i], index + i, ContextAt(name, peer, index + i))
  {
    hide CanonicalCell, CellEvidence, ContextAt;
    EvidenceAppend(tree, name, peer, atoms[..i], [atoms[i]], index);
    assert atoms[..i + 1] == atoms[..i] + [atoms[i]];
    var one := CellsEvidence(tree, name, peer, [atoms[i]], index + i);
    assert one == EvidenceAt(tree, name, peer, [atoms[i]], index + i, 0);
  }

  function CellCount(p: Part): nat {
    if p.Cells? then |p.atoms| else 0
  }

  lemma {:induction false} FlattenAppend(parts: seq<Part>, more: seq<Part>)
    ensures Flatten(parts + more) == Flatten(parts) + Flatten(more)
  {
    if parts == [] {
      assert parts + more == more;
    } else {
      FlattenAppend(parts[1..], more);
      assert (parts + more)[1..] == parts[1..] + more;
    }
  }

  lemma {:induction false} CanonicalPartsAppend(
      tree: Tree, name: string, peer: seq<Atom>, parts: seq<Part>, last: Part, index: nat)
    ensures CanonicalParts(tree, name, peer, parts + [last], index) ==
            CanonicalParts(tree, name, peer, parts, index)
              + CanonicalParts(tree, name, peer, [last], index + |Flatten(parts)|)
  {
    if parts == [] {
      assert parts + [last] == [last];
    } else {
      assert (parts + [last])[1..] == parts[1..] + [last];
      CanonicalPartsAppend(tree, name, peer, parts[1..], last, index + CellCount(parts[0]));
    }
  }

  /** One part whose first cell has index `n`. */
  function CanonicalPart(tree: Tree, name: string, peer: seq<Atom>, p: Part, n: nat): CPart {
    match p
    case Cells(atoms) => CCells(CanonicalCells(tree, name, peer, atoms, n))
    case Strings(items) => CStrings(items)
    case Bytes(items) => CBytes(Map(Lower, items))
    case Raw(items) => CRaw(items)
  }

  lemma OneFlattened(p: Part)
    ensures Flatten([p]) == if p.Cells? then p.atoms else []
  {
    assert [p][1..] == [];
    assert Flatten([]) == [];
  }

  lemma OneCanonical(tree: Tree, name: string, peer: seq<Atom>, p: Part, n: nat)
    ensures CanonicalParts(tree, name, peer, [p], n) == [CanonicalPart(tree, name, peer, p, n)]
  {
    hide CanonicalCells, Lower;
    assert [p][1..] == [];
  }

  /** The state behind one more part. */
  lemma AddPart(tree: Tree, name: string, peer: seq<Atom>, parts: seq<Part>, k: nat)
    requires k < |parts|
    ensures
      var done, more := parts[..k], parts[..k + 1];
      var here := if parts[k].Cells? then parts[k].atoms else [];
      var n := |Flatten(done)|;
      && Flatten(more) == Flatten(done) + here
      && CanonicalParts(tree, name, peer, more, 0) ==
         CanonicalParts(tree, name, peer, done, 0) + CanonicalParts(tree, name, peer, [parts[k]], n)
      && CanonicalParts(tree, name, peer, [parts[k]], n) == [CanonicalPart(tree, name, peer, parts[k], n)]
      && CellsEvidence(tree, name, peer, Flatten(more), 0) ==
         CellsEvidence(tree, name, peer, Flatten(done), 0) + CellsEvidence(tree, name, peer, here, n)
  {
    hide Flatten, CanonicalParts, CanonicalPart, CellsEvidence;
    var done, more := parts[..k], parts[..k + 1];
    var here := if parts[k].Cells? then parts[k].atoms else [];
    OneFlattened(parts[k]);
    OneCanonical(tree, name, peer, parts[k], |Flatten(done)|);
    assert more == done + [parts[k]];
    FlattenAppend(done, [parts[k]]);
    CanonicalPartsAppend(tree, name, peer, done, parts[k], 0);
    EvidenceAppend(tree, name, peer, Flatten(done), here, 0);
  }

  lemma EvidenceAppend(tree: Tree, name: string, peer: seq<Atom>, done: seq<Atom>, here: seq<Atom>, index: nat)
    ensures CellsEvidence(tree, name, peer, done + here, index) ==
            CellsEvidence(tree, name, peer, done, index) + CellsEvidence(tree, name, peer, here, index + |done|)
  {
    hide CellEvidence, ContextAt;
    var all := done + here;
    assert forall i | 0 <= i < |here| :: all[|done| + i] == here[i];
    assert forall i | 0 <= i < |done| :: all[i] == done[i];
    forall e | e in CellsEvidence(tree, name, peer, here, index + |done|)
      ensures e in CellsEvidence(tree, name, peer, all, index)
    {
      var i :| 0 <= i < |here| && e in EvidenceAt(tree, name, peer, here, index + |done|, i);
      assert e in EvidenceAt(tree, name, peer, all, index, |done| + i);
    }
    forall e | e in CellsEvidence(tree, name, peer, done, index)
      ensures e in CellsEvidence(tree, name, peer, all, index)
    {
      var i :| 0 <= i < |done| && e in EvidenceAt(tree, name, peer, done, index, i);
      assert e in EvidenceAt(tree, name, peer, all, index, i);
    }
    forall e | e in CellsEvidence(tree, name, peer, all, index)
      ensures e in CellsEvidence(tree, name, peer, done, index)
                 + CellsEvidence(tree, name, peer, here, index + |done|)
    {
      var i :| 0 <= i < |all| && e in EvidenceAt(tree, name, peer, all, index, i);
      if i >= |done| {
        assert e in EvidenceAt(tree, name, peer, here, index + |done|, i - |done|);
      } else {
        assert e in EvidenceAt(tree, name, peer, done, index, i);
      }
    }
  }
}
