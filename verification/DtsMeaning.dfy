/**
 When two spellings mean the same. The comparison is pinned down exactly: it reports no
 difference if and only if the two trees agree node by node, property by property and cell
 by cell, where a reference is the path it names and not the way it is written.
 */
module DtsMeaning {
  import opened Wrappers
  import opened Ordering
  import opened DtsValues
  import opened DtsTree
  import opened DtsCanonical
  import opened DtsCompare

  // ----- cells -----

  function Resolve(t: Tree, text: string): Option<string> {
    if text in t.labels then Some(t.labels[text]) else None
  }

  /** A number stands for a label: it is the number of the labelled node, or the external sentinel. */
  predicate NumberForLabel(owner: Option<string>, n: int, target: Option<string>) {
    owner == target && (target.None? ==> n == SENTINEL)
  }

  /** Two numbers at one cell: the same node in a reference position, otherwise the same number. */
  predicate NumbersAgree(l: Tree, n: int, r: Tree, m: int, positioned: bool) {
    var p, q := Lookup(l.phandles, n), Lookup(r.phandles, m);
    if positioned then p == q && (p.None? ==> n == m) else n == m
  }

  predicate CellsAgree(l: Tree, a: Atom, r: Tree, b: Atom, positioned: bool) {
    match (a, b)
    case (RefName(x), RefName(y)) => Resolve(l, x) == Resolve(r, y)
    case (Number(n), RefName(y)) => NumberForLabel(Lookup(l.phandles, n), n, Resolve(r, y))
    case (RefName(x), Number(m)) => NumberForLabel(Lookup(r.phandles, m), m, Resolve(l, x))
    case (Number(n), Number(m)) => NumbersAgree(l, n, r, m, positioned)
    case _ => a == b
  }

  /**
   The one case where agreeing cells are told apart: a sentinel number on both sides, in a
   property that only one side spells with a label.
   */
  predicate SentinelTrap(name: string, p: seq<Atom>, q: seq<Atom>) {
    && !LooksLikeRef(name)
    && HasRef(p) != HasRef(q)
    && exists i | 0 <= i < |p| && i < |q| :: p[i] == Number(SENTINEL) && q[i] == Number(SENTINEL)
  }

  predicate AtomsAgree(l: Tree, p: seq<Atom>, r: Tree, q: seq<Atom>, name: string) {
    && |p| == |q|
    && (forall i | 0 <= i < |p| :: CellsAgree(l, p[i], r, q[i], NumericRefPosition(name, i)))
    && !SentinelTrap(name, p, q)
  }

  /** One cell against its peer, in both directions at once. */
  lemma CellMeaning(l: Tree, p: seq<Atom>, r: Tree, q: seq<Atom>, name: string, i: nat)
    requires i < |p| && i < |q|
    ensures
      CanonicalCell(l, p[i], i, ContextAt(name, q, i)) == CanonicalCell(r, q[i], i, ContextAt(name, p, i))
      <==>
      && CellsAgree(l, p[i], r, q[i], NumericRefPosition(name, i))
      && !(p[i] == Number(SENTINEL) && q[i] == Number(SENTINEL) && !LooksLikeRef(name) && HasRef(p) != HasRef(q))
  {
    if NumericRefPosition(name, i) {
      RefPositionLooksLikeRef(name, i);
    }
    hide NumericRefPosition, LooksLikeRef;
    assert p[i].RefName? ==> HasRef(p);
    assert q[i].RefName? ==> HasRef(q);
    var c, d := ContextAt(name, q, i), ContextAt(name, p, i);
    hide HasRef, ContextAt, ExplicitAt, Lookup;
    if p[i].Number? && q[i].Number? {
      NumbersMeaning(l, p[i].n, r, q[i].n, i, c, d);
    } else {
      LabelsMeaning(l, p[i], r, q[i], i, c, d);
    }
  }

  lemma NumbersMeaning(l: Tree, n: int, r: Tree, m: int, i: nat, c: Context, d: Context)
    requires c.name == d.name && !c.explicitPeer && !d.explicitPeer
    requires NumericRefPosition(c.name, i) ==> c.useRefContext && d.useRefContext
    ensures
      CanonicalCell(l, Number(n), i, c) == CanonicalCell(r, Number(m), i, d)
      <==>
      && CellsAgree(l, Number(n), r, Number(m), NumericRefPosition(c.name, i))
      && !(n == SENTINEL && m == SENTINEL && c.useRefContext != d.useRefContext)
  {
    hide NumericRefPosition, Lookup;
  }

  lemma LabelsMeaning(l: Tree, a: Atom, r: Tree, b: Atom, i: nat, c: Context, d: Context)
    requires !(a.Number? && b.Number?)
    requires c.explicitPeer == b.RefName? && d.explicitPeer == a.RefName?
    requires (b.RefName? ==> c.useRefContext) && (a.RefName? ==> d.useRefContext)
    ensures CanonicalCell(l, a, i, c) == CanonicalCell(r, b, i, d) <==>
      CellsAgree(l, a, r, b, NumericRefPosition(c.name, i))
  {
    hide NumericRefPosition, Lookup;
  }

  lemma CellsMeaning(l: Tree, p: seq<Atom>, r: Tree, q: seq<Atom>, name: string)
    ensures CanonicalCells(l, name, q, p, 0) == CanonicalCells(r, name, p, q, 0) <==> AtomsAgree(l, p, r, q, name)
  {
    hide CanonicalCell, ContextAt, CellsAgree, NumericRefPosition, LooksLikeRef;
    var c, d := CanonicalCells(l, name, q, p, 0), CanonicalCells(r, name, p, q, 0);
    if |p| == |q| {
      forall i | 0 <= i < |p|
        ensures c[i] == d[i] <==>
          && CellsAgree(l, p[i], r, q[i], NumericRefPosition(name, i))
          && !(p[i] == Number(SENTINEL) && q[i] == Number(SENTINEL) && !LooksLikeRef(name) && HasRef(p) != HasRef(q))
      {
        CellMeaning(l, p, r, q, name, i);
      }
      assert c == d <==> forall i | 0 <= i < |p| :: c[i] == d[i];
    }
  }

  // ----- values -----

  /** The same text, but for the case of the letters A to Z. */
  predicate SameLetters(a: string, b: string) {
    |a| == |b| && forall i | 0 <= i < |a| :: SameLetter(a[i], b[i])
  }

  predicate SameLetter(a: char, b: char) {
    a == b || ('A' <= a <= 'Z' && b as int == a as int + 32) || ('A' <= b <= 'Z' && a as int == b as int + 32)
  }

  lemma LowerExactly(a: string, b: string)
    ensures Lower(a) == Lower(b) <==> SameLetters(a, b)
  {
    assert |Lower(a)| == |a| && |Lower(b)| == |b|;
    if |a| == |b| {
      hide LowerChar, SameLetter;
      forall i | 0 <= i < |a| ensures Lower(a)[i] == Lower(b)[i] <==> SameLetter(a[i], b[i]) {
        LowerLetter(a[i], b[i]);
      }
    }
  }

  lemma LowerLetter(a: char, b: char)
    ensures LowerChar(a) == LowerChar(b) <==> SameLetter(a, b)
  {
    assert 'A' as int == 65 && 'a' as int == 97;
  }

  lemma LoweredExactly(a: seq<string>, b: seq<string>)
    ensures Map(Lower, a) == Map(Lower, b) <==> |a| == |b| && forall i | 0 <= i < |a| :: SameLetters(a[i], b[i])
  {
    hide Lower, SameLetters;
    if |a| == |b| {
      forall i | 0 <= i < |a| ensures Map(Lower, a)[i] == Map(Lower, b)[i] <==> SameLetters(a[i], b[i]) {
        LowerExactly(a[i], b[i]);
      }
    } else {
      assert |Map(Lower, a)| == |a| && |Map(Lower, b)| == |b|;
    }
  }

  predicate SameKind(p: Part, q: Part) {
    match (p, q)
    case (Cells(a), Cells(b)) => |a| == |b|
    case (Strings(a), Strings(b)) => a == b
    case (Bytes(a), Bytes(b)) => |a| == |b| && forall i | 0 <= i < |a| :: SameLetters(a[i], b[i])
    case (Raw(a), Raw(b)) => a == b
    case _ => false
  }

  predicate SameKinds(p: seq<Part>, q: seq<Part>) {
    |p| == |q| && forall i | 0 <= i < |p| :: SameKind(p[i], q[i])
  }

  /** Cells agree; the grouping must agree too unless both values are made of cells alone. */
  predicate ValuesAgree(l: Tree, p: Property, r: Tree, q: Property) {
    && p.isBoolean == q.isBoolean
    && (!p.isBoolean ==>
          && AtomsAgree(l, Flatten(p.parts), r, Flatten(q.parts), p.name)
          && ((IsCellValue(p) && IsCellValue(q)) || SameKinds(p.parts, q.parts)))
  }

  lemma {:induction false} PartsMeaning(
      l: Tree, p: seq<Part>, r: Tree, q: seq<Part>, name: string, pp: seq<Atom>, qq: seq<Atom>, index: nat)
    ensures
      CanonicalParts(l, name, qq, p, index) == CanonicalParts(r, name, pp, q, index) <==>
      && SameKinds(p, q)
      && CanonicalCells(l, name, qq, Flatten(p), index) == CanonicalCells(r, name, pp, Flatten(q), index)
  {
    hide CanonicalParts, CanonicalCells, Flatten, SameKinds, SameKind, CellCount, HeadAtoms;
    if p == [] || q == [] {
      NoPartsMeaning(l, p, r, q, name, pp, qq, index);
    } else {
      var c, d := CanonicalParts(l, name, qq, p, index), CanonicalParts(r, name, pp, q, index);
      var k, m := CellCount(p[0]), CellCount(q[0]);
      TailParts(l, name, qq, p, index);
      TailParts(r, name, pp, q, index);
      ConsEqual(c, d);
      SameKindsStep(p, q);
      SameKindSameCount(p[0], q[0]);
      HeadMeaning(l, p, r, q, name, pp, qq, index);
      if k == m {
        FlattenCells(l, name, qq, p, index);
        FlattenCells(r, name, pp, q, index);
        ConcatEqual(CanonicalCells(l, name, qq, HeadAtoms(p[0]), index),
                    CanonicalCells(l, name, qq, Flatten(p[1..]), index + k),
                    CanonicalCells(r, name, pp, HeadAtoms(q[0]), index),
                    CanonicalCells(r, name, pp, Flatten(q[1..]), index + m));
        PartsMeaning(l, p[1..], r, q[1..], name, pp, qq, index + k);
      }
    }
  }

  lemma NoPartsMeaning(
      l: Tree, p: seq<Part>, r: Tree, q: seq<Part>, name: string, pp: seq<Atom>, qq: seq<Atom>, index: nat)
    requires p == [] || q == []
    ensures
      CanonicalParts(l, name, qq, p, index) == CanonicalParts(r, name, pp, q, index) <==>
      && SameKinds(p, q)
      && CanonicalCells(l, name, qq, Flatten(p), index) == CanonicalCells(r, name, pp, Flatten(q), index)
  {
    KindsOfParts(l, name, qq, p, index);
    KindsOfParts(r, name, pp, q, index);
    NoCells(l, name, qq, index);
    NoCells(r, name, pp, index);
    hide CanonicalCells, SameKind, Lower;
  }

  lemma SameKindSameCount(p: Part, q: Part)
    ensures SameKind(p, q) ==> CellCount(p) == CellCount(q)
  {
  }

  lemma ConsEqual<T>(c: seq<T>, d: seq<T>)
    requires c != [] && d != []
    ensures c == d <==> c[0] == d[0] && c[1..] == d[1..]
  {
    assert c == [c[0]] + c[1..] && d == [d[0]] + d[1..];
  }

  lemma ConcatEqual<T>(a: seq<T>, b: seq<T>, c: seq<T>, d: seq<T>)
    requires |a| == |c|
    ensures a + b == c + d <==> a == c && b == d
  {
    assert (a + b)[..|a|] == a && (a + b)[|a|..] == b;
    assert (c + d)[..|a|] == c && (c + d)[|a|..] == d;
  }

  lemma TailParts(t: Tree, name: string, peer: seq<Atom>, p: seq<Part>, index: nat)
    requires p != []
    ensures
      var c := CanonicalParts(t, name, peer, p, index);
      c != [] && c[1..] == CanonicalParts(t, name, peer, p[1..], index + CellCount(p[0]))
  {
    hide CanonicalCells, Lower;
  }

  lemma NoCells(t: Tree, name: string, peer: seq<Atom>, index: nat)
    ensures CanonicalCells(t, name, peer, [], index) == []
  {
  }

  lemma SameKindsStep(p: seq<Part>, q: seq<Part>)
    requires p != [] && q != []
    ensures SameKinds(p, q) <==> SameKind(p[0], q[0]) && SameKinds(p[1..], q[1..])
  {
    hide SameKind;
    if SameKind(p[0], q[0]) && SameKinds(p[1..], q[1..]) {
      forall i | 0 <= i < |p| ensures SameKind(p[i], q[i]) {
        if i > 0 {
          assert SameKind(p[1..][i - 1], q[1..][i - 1]);
        }
      }
    }
  }

  function HeadAtoms(p: Part): seq<Atom> {
    if p.Cells? then p.atoms else []
  }

  lemma FlattenHead(p: seq<Part>)
    requires p != []
    ensures Flatten(p) == HeadAtoms(p[0]) + Flatten(p[1..])
    ensures |HeadAtoms(p[0])| == CellCount(p[0])
  {
  }

  /** The cells of a value are those of its first part and those of the rest. */
  lemma FlattenCells(t: Tree, name: string, peer: seq<Atom>, p: seq<Part>, index: nat)
    requires p != []
    ensures |CanonicalCells(t, name, peer, HeadAtoms(p[0]), index)| == CellCount(p[0])
    ensures CanonicalCells(t, name, peer, Flatten(p), index) ==
            CanonicalCells(t, name, peer, HeadAtoms(p[0]), index)
              + CanonicalCells(t, name, peer, Flatten(p[1..]), index + CellCount(p[0]))
  {
    hide CanonicalCells, Flatten;
    FlattenHead(p);
    CellsConcat(t, name, peer, HeadAtoms(p[0]), Flatten(p[1..]), index);
  }

  lemma HeadMeaning(
      l: Tree, p: seq<Part>, r: Tree, q: seq<Part>, name: string, pp: seq<Atom>, qq: seq<Atom>, index: nat)
    requires p != [] && q != []
    ensures
      CanonicalParts(l, name, qq, p, index)[0] == CanonicalParts(r, name, pp, q, index)[0] <==>
      && SameKind(p[0], q[0])
      && CanonicalCells(l, name, qq, HeadAtoms(p[0]), index) == CanonicalCells(r, name, pp, HeadAtoms(q[0]), index)
  {
    hide CanonicalCell, ContextAt, Lower, SameLetters;
    NoCells(l, name, qq, index);
    NoCells(r, name, pp, index);
    if p[0].Bytes? && q[0].Bytes? {
      LoweredExactly(p[0].items, q[0].items);
    }
  }

  /** Only a value made of cells is regrouped, and then into a single list. */
  lemma RegroupedExactlyCellValues(t: Tree, p: Property, peer: seq<Atom>)
    requires !p.isBoolean
    ensures
      var c := CanonicalParts(t, p.name, peer, p.parts, 0);
      && (IsCellValue(p) <==> AllCells(c) != [] && OnlyCells(c))
      && (!IsCellValue(p) ==> Regroup(c) == c)
  {
    hide CanonicalCell, ContextAt;
    CellsOfParts(t, p.name, peer, p.parts, 0);
    KindsOfParts(t, p.name, peer, p.parts, 0);
    assert forall i | 0 <= i < |p.parts| :: p.parts[i] in p.parts;
    assert |AllCells(CanonicalParts(t, p.name, peer, p.parts, 0))| == |Flatten(p.parts)|;
  }

  lemma NeverBoolean(t: Tree, p: Property, peer: seq<Atom>)
    ensures CBoolean !in Regroup(CanonicalParts(t, p.name, peer, p.parts, 0))
  {
    NoBooleanParts(t, p.name, peer, p.parts, 0);
  }

  lemma {:induction false} NoBooleanParts(t: Tree, name: string, peer: seq<Atom>, parts: seq<Part>, index: nat)
    ensures CBoolean !in CanonicalParts(t, name, peer, parts, index)
  {
    hide CanonicalCells, Lower;
    if parts != [] {
      NoBooleanParts(t, name, peer, parts[1..], index + CellCount(parts[0]));
    }
  }

  lemma {:induction false} SameKindsSameCells(p: seq<Part>, q: seq<Part>)
    requires SameKinds(p, q)
    ensures |Flatten(p)| == |Flatten(q)|
    ensures (forall x | x in p :: x.Cells?) <==> (forall x | x in q :: x.Cells?)
  {
    if p != [] {
      SameKindsStep(p, q);
      SameKindsSameCells(p[1..], q[1..]);
      assert p == [p[0]] + p[1..] && q == [q[0]] + q[1..];
    }
  }

  /** Two properties of one name have the same canonical form exactly when their values agree. */
  lemma ValueMeaning(l: Tree, p: Property, r: Tree, q: Property)
    requires p.name == q.name
    ensures CanonicalValue(l, p, Some(q)) == CanonicalValue(r, q, Some(p)) <==> ValuesAgree(l, p, r, q)
  {
    hide CanonicalCell, CanonicalCells, ContextAt, CanonicalParts, AtomsAgree, Regroup, IsCellValue, SameKinds;
    var pp, qq := Flatten(p.parts), Flatten(q.parts);
    if p.isBoolean || q.isBoolean {
      NeverBoolean(l, p, qq);
      NeverBoolean(r, q, pp);
      assert [CBoolean][0] == CBoolean;
    } else {
      CellsMeaning(l, pp, r, qq, p.name);
      RegroupedExactlyCellValues(l, p, qq);
      RegroupedExactlyCellValues(r, q, pp);
      if IsCellValue(p) && IsCellValue(q) {
        CellValueIsGroupingFree(l, p, Some(q));
        CellValueIsGroupingFree(r, q, Some(p));
      } else {
        PartsMeaning(l, p.parts, r, q.parts, p.name, pp, qq, 0);
        if IsCellValue(p) != IsCellValue(q) {
          OneCellValue(l, p, r, q);
        }
      }
    }
  }

  /** A value made of cells never agrees with one that is not. */
  lemma OneCellValue(l: Tree, p: Property, r: Tree, q: Property)
    requires !p.isBoolean && !q.isBoolean && IsCellValue(p) != IsCellValue(q)
    ensures CanonicalValue(l, p, Some(q)) != CanonicalValue(r, q, Some(p))
    ensures !SameKinds(p.parts, q.parts)
  {
    hide CanonicalCell, ContextAt, CanonicalParts, SameKind;
    var pp, qq := Flatten(p.parts), Flatten(q.parts);
    if SameKinds(p.parts, q.parts) {
      SameKindsSameCells(p.parts, q.parts);
    }
    RegroupedExactlyCellValues(l, p, qq);
    RegroupedExactlyCellValues(r, q, pp);
    if IsCellValue(p) {
      CellValueIsGroupingFree(l, p, Some(q));
      SingleList(CanonicalCells(l, p.name, qq, pp, 0));
    } else {
      CellValueIsGroupingFree(r, q, Some(p));
      SingleList(CanonicalCells(r, q.name, pp, qq, 0));
    }
  }

  lemma SingleList(cells: seq<Cell>)
    ensures AllCells([CCells(cells)]) == cells && OnlyCells([CCells(cells)])
  {
    assert [CCells(cells)][1..] == [];
    assert cells + [] == cells;
  }
}
