/**
 The phandle and label tables of a parsed tree, read off its nodes alone: a number or a label
 belongs to the least path that has it, and every other claim to it is reported.
 */
module DtsTables {
  import opened Wrappers
  import opened Ordering
  import opened DtsScanner
  import opened DtsValues
  import opened DtsTree
  import opened DtsGrammar
  import opened DtsShape

  // ----- owners -----

  type PropertyMap = map<string, Property>

  predicate Valued(ps: PropertyMap, name: string) {
    name in ps && !ps[name].isBoolean
  }

  /** The value's cells are this one number. */
  predicate HasNumber(ps: PropertyMap, name: string, n: int) {
    Valued(ps, name) && Flatten(ps[name].parts) == [Number(n)]
  }

  predicate Owns(ps: PropertyMap, n: int) {
    HasNumber(ps, "phandle", n) || HasNumber(ps, "linux,phandle", n)
  }

  /** A phandle property whose cells are not one number. */
  ghost predicate Malformed(ps: PropertyMap, name: string) {
    name in {"phandle", "linux,phandle"} && Valued(ps, name) && forall n :: !HasNumber(ps, name, n)
  }

  /** The least path that owns the number. */
  ghost predicate FirstOwner(nodes: Nodes, n: int, p: string) {
    && p in nodes && Owns(nodes[p].properties, n)
    && forall q | q in nodes && Owns(nodes[q].properties, n) :: q == p || StrLess(p, q)
  }

  /** The least path that carries the label. */
  ghost predicate FirstLabelled(nodes: Nodes, x: string, p: string) {
    && p in nodes && x in nodes[p].labels
    && forall q | q in nodes && x in nodes[q].labels :: q == p || StrLess(p, q)
  }

  /** Entries stand in path order, and those of one path in the order of the two spellings. */
  ghost predicate Before(nodes: Nodes, a: (int, string), b: (int, string)) {
    && a.0 != b.0
    && (StrLess(a.1, b.1)
        || (&& a.1 == b.1 && a.1 in nodes
            && HasNumber(nodes[a.1].properties, "phandle", a.0)
            && HasNumber(nodes[a.1].properties, "linux,phandle", b.0)))
  }

  ghost predicate InOrder(nodes: Nodes, table: seq<(int, string)>) {
    forall i, j | 0 <= i < j < |table| :: Before(nodes, table[i], table[j])
  }

  ghost predicate PhandlesOf(nodes: Nodes, table: seq<(int, string)>) {
    && (forall n, p :: (n, p) in table <==> FirstOwner(nodes, n, p))
    && (forall n, p :: Lookup(table, n) == Some(p) <==> FirstOwner(nodes, n, p))
    && InOrder(nodes, table)
  }

  ghost predicate LabelsOf(nodes: Nodes, labels: map<string, string>) {
    forall x, p :: x in labels && labels[x] == p <==> FirstLabelled(nodes, x, p)
  }

  /** The tables of a tree are those of its nodes, and so are the reports about them. */
  ghost predicate TablesMatch(t: Tree) {
    && PhandlesOf(t.nodes, t.phandles) && LabelsOf(t.nodes, t.labels)
    && (forall name, p :: NonScalarPhandle(name, p) in t.issues <==>
          p in t.nodes && Malformed(t.nodes[p].properties, name))
    && (forall n, first, p :: DuplicatePhandle(n, first, p) in t.issues <==>
          p in t.nodes && Owns(t.nodes[p].properties, n) && FirstOwner(t.nodes, n, first) && first != p)
    && (forall x, first, p :: DuplicateLabel(x, first, p) in t.issues <==>
          p in t.nodes && x in t.nodes[p].labels && FirstLabelled(t.nodes, x, first) && first != p)
    && (forall x :: x in t.duplicateLabels <==>
          exists p, q :: p in t.nodes && q in t.nodes && p != q && x in t.nodes[p].labels && x in t.nodes[q].labels)
  }

  /** The number a node is shown under: its second spelling's, if that is its own, or its first's. */
  ghost predicate ShownNumber(nodes: Nodes, p: string, n: int) {
    && FirstOwner(nodes, n, p)
    && (|| HasNumber(nodes[p].properties, "linux,phandle", n)
        || forall m | HasNumber(nodes[p].properties, "linux,phandle", m) :: !FirstOwner(nodes, m, p))
  }

  // ----- one phandle property -----

  lemma DirectNumbersExactly(p: Property, n: int)
    ensures DirectNumbers(p) == [n] <==> Flatten(p.parts) == [Number(n)]
    ensures |DirectNumbers(p)| == 1 ==> DirectNumbers(p) == [DirectNumbers(p)[0]]
  {
    hide Flatten;
    var atoms := Flatten(p.parts);
    if DirectNumbers(p) == [n] {
      assert |atoms| == 1 && atoms[0] in atoms;
      assert DirectNumbers(p)[0] == atoms[0].n;
      assert atoms == [Number(n)];
    }
  }

  /** One property enters its number unless that is taken, and reports what cannot be entered. */
  lemma OneProperty(table: seq<(int, string)>, node: Node, path: string, name: string, n: int)
    ensures
      var (t, issues) := AddPhandle(table, node, path, name);
      && Lookup(t, n) == (if Lookup(table, n).Some? then Lookup(table, n)
                          else if HasNumber(node.properties, name, n) then Some(path) else None)
      && (t == table || exists m :: t == table + [(m, path)] && Lookup(table, m).None? && HasNumber(node.properties, name, m))
  {
    hide DirectNumbers, Lookup;
    if Valued(node.properties, name) {
      var p := node.properties[name];
      DirectNumbersExactly(p, n);
      if |DirectNumbers(p)| == 1 {
        var m := DirectNumbers(p)[0];
        DirectNumbersExactly(p, m);
        LookupAppend(table, m, path, n);
      }
    }
  }

  lemma {:induction false} LookupAppend(table: seq<(int, string)>, m: int, path: string, n: int)
    ensures Lookup(table + [(m, path)], n) ==
      if Lookup(table, n).Some? then Lookup(table, n) else if m == n then Some(path) else None
  {
    if table == [] {
      assert table + [(m, path)] == [(m, path)];
      assert Lookup([(m, path)][1..], n) == None;
    } else {
      LookupAppend(table[1..], m, path, n);
      assert (table + [(m, path)])[1..] == table[1..] + [(m, path)];
    }
  }

  lemma OneReport(table: seq<(int, string)>, node: Node, path: string, name: string, issue: Issue)
    ensures
      issue in AddPhandle(table, node, path, name).1 <==>
      || (issue == NonScalarPhandle(name, path) && Valued(node.properties, name)
          && forall n :: !HasNumber(node.properties, name, n))
      || (&& issue.DuplicatePhandle? && issue.path == path && HasNumber(node.properties, name, issue.n)
          && Lookup(table, issue.n) == Some(issue.first) && issue.first != path)
  {
    hide DirectNumbers, Lookup;
    if Valued(node.properties, name) {
      var p := node.properties[name];
      forall n ensures DirectNumbers(p) == [n] <==> HasNumber(node.properties, name, n) {
        DirectNumbersExactly(p, n);
      }
      DirectNumbersExactly(p, 0);
      if |DirectNumbers(p)| == 1 {
        assert HasNumber(node.properties, name, DirectNumbers(p)[0]);
      }
    }
  }

  // ----- all nodes -----

  /** The owner of a number: the one in the table, or else the first path that owns it. */
  function OwnerIn(table: seq<(int, string)>, nodes: Nodes, paths: seq<string>, n: int): Option<string>
    requires forall p | p in paths :: p in nodes
    decreases |paths|
  {
    if Lookup(table, n).Some? then Lookup(table, n)
    else if paths == [] then None
    else if Owns(nodes[paths[0]].properties, n) then Some(paths[0])
    else OwnerIn(table, nodes, paths[1..], n)
  }

  lemma OneNode(table: seq<(int, string)>, node: Node, path: string, n: int)
    ensures
      Lookup(AddNodePhandles(table, node, path).0, n) ==
      if Lookup(table, n).Some? then Lookup(table, n) else if Owns(node.properties, n) then Some(path) else None
  {
    hide AddPhandle, Lookup, HasNumber;
    OneProperty(table, node, path, PHANDLE_NAMES[0], n);
    OneProperty(AddPhandle(table, node, path, PHANDLE_NAMES[0]).0, node, path, PHANDLE_NAMES[1], n);
  }

  lemma {:induction false} SameOwner(table: seq<(int, string)>, t1: seq<(int, string)>, nodes: Nodes, paths: seq<string>, n: int)
    requires forall p | p in paths :: p in nodes
    requires Lookup(t1, n) == Lookup(table, n)
    ensures OwnerIn(t1, nodes, paths, n) == OwnerIn(table, nodes, paths, n)
    decreases |paths|
  {
    hide Lookup;
    if paths != [] {
      SameOwner(table, t1, nodes, paths[1..], n);
    }
  }

  lemma {:induction false} OwnersFound(table: seq<(int, string)>, nodes: Nodes, paths: seq<string>, n: int)
    requires forall p | p in paths :: p in nodes
    ensures Lookup(AddPhandles(table, nodes, paths).0, n) == OwnerIn(table, nodes, paths, n)
    decreases |paths|
  {
    hide Lookup, AddNodePhandles, Owns;
    if paths != [] {
      var t1 := AddNodePhandles(table, nodes[paths[0]], paths[0]).0;
      OneNode(table, nodes[paths[0]], paths[0], n);
      OwnersFound(t1, nodes, paths[1..], n);
      if Lookup(t1, n) == Lookup(table, n) {
        SameOwner(table, t1, nodes, paths[1..], n);
      }
    }
  }

  /** What one node reports. */
  ghost predicate Reports(owner: Option<string>, nodes: Nodes, p: string, issue: Issue) {
    && p in nodes
    && ((issue.NonScalarPhandle? && issue.path == p && Malformed(nodes[p].properties, issue.property))
        || (&& issue.DuplicatePhandle? && issue.path == p && Owns(nodes[p].properties, issue.n)
            && owner == Some(issue.first) && issue.first != p))
  }

  lemma OneNodeReports(table: seq<(int, string)>, nodes: Nodes, p: string, issue: Issue)
    requires p in nodes
    ensures
      var owner := if issue.DuplicatePhandle? then Lookup(table, issue.n) else None;
      issue in AddNodePhandles(table, nodes[p], p).1 <==> Reports(owner, nodes, p, issue)
  {
    hide AddPhandle, Lookup, HasNumber, Valued;
    var node := nodes[p];
    var t1 := AddPhandle(table, node, p, PHANDLE_NAMES[0]).0;
    OneReport(table, node, p, PHANDLE_NAMES[0], issue);
    OneReport(t1, node, p, PHANDLE_NAMES[1], issue);
    if issue.DuplicatePhandle? {
      OneProperty(table, node, p, PHANDLE_NAMES[0], issue.n);
    }
  }

  lemma {:induction false} NodesReport(table: seq<(int, string)>, nodes: Nodes, paths: seq<string>, issue: Issue)
    requires forall p | p in paths :: p in nodes
    ensures
      var owner := if issue.DuplicatePhandle? then OwnerIn(table, nodes, paths, issue.n) else None;
      issue in AddPhandles(table, nodes, paths).1 <==> exists p | p in paths :: Reports(owner, nodes, p, issue)
    decreases |paths|
  {
    hide AddNodePhandles, Lookup, Owns, Malformed;
    if paths != [] {
      var p, rest := paths[0], paths[1..];
      var t1 := AddNodePhandles(table, nodes[p], p).0;
      OneNodeReports(table, nodes, p, issue);
      NodesReport(t1, nodes, rest, issue);
      assert forall q :: q in paths <==> q == p || q in rest;
      if issue.DuplicatePhandle? {
        OneNode(table, nodes[p], p, issue.n);
        if Lookup(t1, issue.n) == Lookup(table, issue.n) {
          SameOwner(table, t1, nodes, rest, issue.n);
        }
      }
    }
  }

  lemma {:induction false} OwnerIsFirst(nodes: Nodes, paths: seq<string>, n: int, p: string)
    requires StrictlySorted(paths, StrLess) && forall q | q in paths :: q in nodes
    ensures OwnerIn([], nodes, paths, n) == Some(p) <==>
      && p in paths && Owns(nodes[p].properties, n)
      && forall q | q in paths && Owns(nodes[q].properties, n) :: q == p || StrLess(p, q)
    decreases |paths|
  {
    hide Owns, StrLess;
    if paths != [] {
      StrLessIsAsymmetric();
      OwnerIsFirst(nodes, paths[1..], n, p);
      assert forall q :: q in paths <==> q == paths[0] || q in paths[1..];
      forall q | q in paths[1..] ensures StrLess(paths[0], q) {
        var i :| 0 <= i < |paths| - 1 && paths[1..][i] == q;
        assert paths[i + 1] == q;
      }
    }
  }

  lemma FirstIsOwner(nodes: Nodes, n: int, p: string)
    ensures OwnerIn([], nodes, SortedSet(nodes.Keys), n) == Some(p) <==> FirstOwner(nodes, n, p)
  {
    hide Owns, StrLess;
    OwnerIsFirst(nodes, SortedSet(nodes.Keys), n, p);
  }

  // ----- the order of the table -----

  lemma AppendInOrder(nodes: Nodes, table: seq<(int, string)>, m: int, path: string)
    requires InOrder(nodes, table)
    requires forall i | 0 <= i < |table| :: Before(nodes, table[i], (m, path))
    ensures InOrder(nodes, table + [(m, path)])
  {
    hide Before;
  }

  lemma UnusedNumber(table: seq<(int, string)>, m: int)
    requires Lookup(table, m).None?
    ensures forall i | 0 <= i < |table| :: table[i].0 != m
  {
  }

  lemma OneNodeInOrder(nodes: Nodes, table: seq<(int, string)>, path: string)
    requires path in nodes && InOrder(nodes, table)
    requires forall e | e in table :: StrLess(e.1, path)
    ensures InOrder(nodes, AddNodePhandles(table, nodes[path], path).0)
    ensures forall e | e in AddNodePhandles(table, nodes[path], path).0 :: e in table || e.1 == path
  {
    hide AddPhandle, Lookup, HasNumber, StrLess, InOrder;
    var node := nodes[path];
    var t1 := AddPhandle(table, node, path, PHANDLE_NAMES[0]).0;
    var t2 := AddPhandle(t1, node, path, PHANDLE_NAMES[1]).0;
    OneProperty(table, node, path, PHANDLE_NAMES[0], 0);
    OneProperty(t1, node, path, PHANDLE_NAMES[1], 0);
    if t1 != table {
      var m :| t1 == table + [(m, path)] && Lookup(table, m).None? && HasNumber(node.properties, "phandle", m);
      UnusedNumber(table, m);
      AppendInOrder(nodes, table, m, path);
    }
    if t2 != t1 {
      var k :| t2 == t1 + [(k, path)] && Lookup(t1, k).None? && HasNumber(node.properties, "linux,phandle", k);
      UnusedNumber(t1, k);
      AppendInOrder(nodes, t1, k, path);
    }
  }

  lemma {:induction false} EnteredInOrder(nodes: Nodes, table: seq<(int, string)>, paths: seq<string>)
    requires (forall p | p in paths :: p in nodes) && StrictlySorted(paths, StrLess)
    requires InOrder(nodes, table) && forall e, p | e in table && p in paths :: StrLess(e.1, p)
    ensures InOrder(nodes, AddPhandles(table, nodes, paths).0)
    decreases |paths|
  {
    hide AddNodePhandles, InOrder, StrLess;
    if paths != [] {
      OneNodeInOrder(nodes, table, paths[0]);
      assert forall p | p in paths[1..] :: p in paths;
      forall p | p in paths[1..] ensures StrLess(paths[0], p) {
        var i :| 0 <= i < |paths| - 1 && paths[1..][i] == p;
        assert paths[i + 1] == p;
      }
      EnteredInOrder(nodes, AddNodePhandles(table, nodes[paths[0]], paths[0]).0, paths[1..]);
    }
  }

  lemma {:induction false} LookupInOrder(nodes: Nodes, table: seq<(int, string)>, n: int, p: string)
    requires InOrder(nodes, table)
    ensures (n, p) in table <==> Lookup(table, n) == Some(p)
  {
    hide HasNumber, StrLess;
    if table != [] {
      assert table == [table[0]] + table[1..];
      LookupInOrder(nodes, table[1..], n, p);
      forall e | e in table[1..] ensures e.0 != table[0].0 {
        var i :| 0 <= i < |table| - 1 && table[1..][i] == e;
        assert Before(nodes, table[0], table[i + 1]);
      }
    }
  }

  lemma PhandleTable(nodes: Nodes)
    ensures PhandlesOf(nodes, BuildPhandles(nodes).0)
  {
    hide AddPhandles, FirstOwner, InOrder, Lookup;
    var table := BuildPhandles(nodes).0;
    NothingInOrder(nodes);
    EnteredInOrder(nodes, [], SortedSet(nodes.Keys));
    forall n, p ensures Lookup(table, n) == Some(p) <==> FirstOwner(nodes, n, p) {
      OwnersFound([], nodes, SortedSet(nodes.Keys), n);
      FirstIsOwner(nodes, n, p);
    }
    forall n, p ensures (n, p) in table <==> FirstOwner(nodes, n, p) {
      LookupInOrder(nodes, table, n, p);
    }
  }

  lemma NothingInOrder(nodes: Nodes)
    ensures InOrder(nodes, [])
  {
  }

  lemma PhandleReports(nodes: Nodes, issue: Issue)
    ensures
      issue in BuildPhandles(nodes).1 <==>
      || (&& issue.NonScalarPhandle? && issue.path in nodes
          && Malformed(nodes[issue.path].properties, issue.property))
      || (&& issue.DuplicatePhandle? && issue.path in nodes && Owns(nodes[issue.path].properties, issue.n)
          && FirstOwner(nodes, issue.n, issue.first) && issue.first != issue.path)
  {
    hide AddPhandles, FirstOwner, Owns, Malformed;
    NodesReport([], nodes, SortedSet(nodes.Keys), issue);
    if issue.DuplicatePhandle? {
      FirstIsOwner(nodes, issue.n, issue.first);
    }
  }

  // ----- labels -----

  /** The owner of a label: the one in the table, or else the first path that carries it. */
  function LabelOwner(labels: map<string, string>, nodes: Nodes, paths: seq<string>, x: string): Option<string>
    requires forall p | p in paths :: p in nodes
    decreases |paths|
  {
    if x in labels then Some(labels[x])
    else if paths == [] then None
    else if x in nodes[paths[0]].labels then Some(paths[0])
    else LabelOwner(labels, nodes, paths[1..], x)
  }

  lemma {:induction false} OneNodeLabels(labels: map<string, string>, names: seq<string>, path: string)
    ensures
      var (l, found) := AddNodeLabels(labels, names, path);
      && (forall x :: x in l <==> x in labels || x in names)
      && (forall x | x in l :: l[x] == if x in labels then labels[x] else path)
      && (forall x, first :: (x, first) in found <==> x in names && x in labels && labels[x] == first && first != path)
    decreases |names|
  {
    if names != [] {
      var known := names[0] in labels && labels[names[0]] != path;
      OneNodeLabels(if known then labels else labels[names[0] := path], names[1..], path);
      assert forall x :: x in names <==> x == names[0] || x in names[1..];
    }
  }

  lemma OneLabel(labels: map<string, string>, names: seq<string>, path: string, x: string)
    ensures
      var l := AddNodeLabels(labels, names, path).0;
      && (x in l <==> x in labels || x in names)
      && (x in l ==> l[x] == if x in labels then labels[x] else path)
  {
    OneNodeLabels(labels, names, path);
  }

  lemma {:induction false} SameLabelOwner(
      labels: map<string, string>, l1: map<string, string>, nodes: Nodes, paths: seq<string>, x: string)
    requires forall p | p in paths :: p in nodes
    requires (x in l1 <==> x in labels) && (x in labels ==> l1[x] == labels[x])
    ensures LabelOwner(l1, nodes, paths, x) == LabelOwner(labels, nodes, paths, x)
    decreases |paths|
  {
    if paths != [] {
      SameLabelOwner(labels, l1, nodes, paths[1..], x);
    }
  }

  lemma {:induction false} LabelsFound(labels: map<string, string>, nodes: Nodes, paths: seq<string>, x: string)
    requires forall p | p in paths :: p in nodes
    ensures
      var l := AddLabels(labels, nodes, paths).0;
      LabelOwner(labels, nodes, paths, x) == if x in l then Some(l[x]) else None
    decreases |paths|
  {
    hide AddNodeLabels;
    if paths != [] {
      var l1 := AddNodeLabels(labels, nodes[paths[0]].labels, paths[0]).0;
      OneLabel(labels, nodes[paths[0]].labels, paths[0], x);
      LabelsFound(l1, nodes, paths[1..], x);
      if x in l1 <==> x in labels {
        SameLabelOwner(labels, l1, nodes, paths[1..], x);
      }
    }
  }

  lemma WithPathMembers(found: seq<(string, string)>, path: string, x: string, first: string, p: string)
    ensures (x, first, p) in WithPath(found, path) <==> (x, first) in found && p == path
  {
    if (x, first) in found && p == path {
      var i :| 0 <= i < |found| && found[i] == (x, first);
      assert WithPath(found, path)[i] == (x, first, p);
    }
  }

  lemma {:induction false} LabelsRepeated(
      labels: map<string, string>, nodes: Nodes, paths: seq<string>, x: string, first: string, p: string)
    requires forall q | q in paths :: q in nodes
    ensures (x, first, p) in AddLabels(labels, nodes, paths).1 <==>
      && p in paths && x in nodes[p].labels && LabelOwner(labels, nodes, paths, x) == Some(first) && first != p
    decreases |paths|
  {
    hide AddNodeLabels, WithPath;
    if paths != [] {
      var q := paths[0];
      var (l1, found) := AddNodeLabels(labels, nodes[q].labels, q);
      OneNodeLabels(labels, nodes[q].labels, q);
      WithPathMembers(found, q, x, first, p);
      LabelsRepeated(l1, nodes, paths[1..], x, first, p);
      assert forall r :: r in paths <==> r == q || r in paths[1..];
      if x in l1 <==> x in labels {
        SameLabelOwner(labels, l1, nodes, paths[1..], x);
      }
    }
  }

  lemma {:induction false} LabelOwnerIsFirst(nodes: Nodes, paths: seq<string>, x: string, p: string)
    requires StrictlySorted(paths, StrLess) && forall q | q in paths :: q in nodes
    ensures LabelOwner(map[], nodes, paths, x) == Some(p) <==>
      && p in paths && x in nodes[p].labels
      && forall q | q in paths && x in nodes[q].labels :: q == p || StrLess(p, q)
    decreases |paths|
  {
    hide StrLess;
    if paths != [] {
      StrLessIsAsymmetric();
      LabelOwnerIsFirst(nodes, paths[1..], x, p);
      assert forall q :: q in paths <==> q == paths[0] || q in paths[1..];
      forall q | q in paths[1..] ensures StrLess(paths[0], q) {
        var i :| 0 <= i < |paths| - 1 && paths[1..][i] == q;
        assert paths[i + 1] == q;
      }
    }
  }

  lemma LabelTable(nodes: Nodes)
    ensures LabelsOf(nodes, BuildLabels(nodes).0)
    ensures forall x, first, p :: (x, first, p) in BuildLabels(nodes).1 <==>
      p in nodes && x in nodes[p].labels && FirstLabelled(nodes, x, first) && first != p
  {
    hide AddLabels, LabelOwner, StrLess;
    var paths := SortedSet(nodes.Keys);
    forall x, p ensures LabelOwner(map[], nodes, paths, x) == Some(p) <==> FirstLabelled(nodes, x, p) {
      LabelOwnerIsFirst(nodes, paths, x, p);
    }
    forall x, p ensures x in BuildLabels(nodes).0 && BuildLabels(nodes).0[x] == p <==> FirstLabelled(nodes, x, p) {
      LabelsFound(map[], nodes, paths, x);
    }
    forall x, first, p
      ensures (x, first, p) in BuildLabels(nodes).1 <==>
        p in nodes && x in nodes[p].labels && FirstLabelled(nodes, x, first) && first != p
    {
      LabelsRepeated(map[], nodes, paths, x, first, p);
    }
  }

  lemma SomeFirst(nodes: Nodes, paths: set<string>, x: string, p: string) returns (first: string)
    requires paths == set q | q in nodes && x in nodes[q].labels
    requires p in paths
    ensures FirstLabelled(nodes, x, first)
  {
    first := LeastString(paths);
    assert first in paths;
    forall q | q in nodes && x in nodes[q].labels ensures q == first || StrLess(first, q) {
      assert q in paths;
    }
  }

  /** A label is repeated exactly when two nodes carry it. */
  lemma RepeatedExactly(nodes: Nodes, x: string)
    ensures
      (exists first, p :: p in nodes && x in nodes[p].labels && FirstLabelled(nodes, x, first) && first != p) <==>
      exists p, q :: p in nodes && q in nodes && p != q && x in nodes[p].labels && x in nodes[q].labels
  {
    hide StrLess;
    if p, q :| p in nodes && q in nodes && p != q && x in nodes[p].labels && x in nodes[q].labels {
      var first := SomeFirst(nodes, (set r | r in nodes && x in nodes[r].labels), x, p);
      assert first != p || first != q;
    }
  }

  // ----- parsed trees -----

  /** The nodes differ in their child lists only. */
  ghost predicate SameButChildren(a: Nodes, b: Nodes) {
    a.Keys == b.Keys && forall p | p in a :: a[p].properties == b[p].properties && a[p].labels == b[p].labels
  }

  lemma SameTables(a: Nodes, b: Nodes)
    requires SameButChildren(a, b)
    ensures forall table :: PhandlesOf(a, table) <==> PhandlesOf(b, table)
    ensures forall labels :: LabelsOf(a, labels) <==> LabelsOf(b, labels)
    ensures forall n, p :: FirstOwner(a, n, p) <==> FirstOwner(b, n, p)
    ensures forall x, p :: FirstLabelled(a, x, p) <==> FirstLabelled(b, x, p)
  {
    hide Owns, StrLess, HasNumber;
    assert forall n, p :: FirstOwner(a, n, p) <==> FirstOwner(b, n, p);
    assert forall x, p :: FirstLabelled(a, x, p) <==> FirstLabelled(b, x, p);
    hide FirstOwner, FirstLabelled;
    assert forall e, f :: Before(a, e, f) <==> Before(b, e, f);
  }

  lemma FinishedTables(st: PState, source: string)
    requires Childless(st) && Finish(st, source).Ok?
    ensures TablesMatch(Finish(st, source).value)
  {
    hide BuildLabels, BuildPhandles, Malformed, FirstOwner, FirstLabelled, Owns, PhandlesOf, LabelsOf;
    var t := Finish(st, source).value;
    var nodes := WithChildren(st.nodes, st.children);
    assert SameButChildren(st.nodes, nodes);
    SameTables(st.nodes, nodes);
    PhandleTable(st.nodes);
    LabelTable(st.nodes);
    FinishedIssues(st, source);
    forall name, p
      ensures NonScalarPhandle(name, p) in t.issues <==> p in t.nodes && Malformed(t.nodes[p].properties, name)
    {
      PhandleReports(st.nodes, NonScalarPhandle(name, p));
    }
    forall n, first, p
      ensures DuplicatePhandle(n, first, p) in t.issues <==>
        p in t.nodes && Owns(t.nodes[p].properties, n) && FirstOwner(t.nodes, n, first) && first != p
    {
      PhandleReports(st.nodes, DuplicatePhandle(n, first, p));
    }
    forall x
      ensures x in t.duplicateLabels <==>
        exists p, q :: p in t.nodes && q in t.nodes && p != q && x in t.nodes[p].labels && x in t.nodes[q].labels
    {
      RepeatedExactly(t.nodes, x);
    }
  }

  /** The issues about tables are those of the two builders. */
  lemma FinishedIssues(st: PState, source: string)
    requires Childless(st) && Finish(st, source).Ok?
    ensures
      var t := Finish(st, source).value;
      && (forall issue: Issue | issue.NonScalarPhandle? || issue.DuplicatePhandle? ::
            issue in t.issues <==> issue in BuildPhandles(st.nodes).1)
      && (forall x, first, p :: DuplicateLabel(x, first, p) in t.issues <==> (x, first, p) in BuildLabels(st.nodes).1)
      && (forall x :: x in t.duplicateLabels <==> exists first, p :: (x, first, p) in BuildLabels(st.nodes).1)
  {
    var t := Finish(st, source).value;
    var (dups, bad) := (BuildLabels(st.nodes).1, BuildPhandles(st.nodes).1);
    var made := FinishedParts(st, source);
    forall issue | issue in bad ensures !issue.DuplicateLabel? {
      PhandleReports(st.nodes, issue);
    }
    hide Finish, BuildLabels, BuildPhandles;
    LabelIssues(dups, made);
    forall x ensures x in t.duplicateLabels <==> exists first, p :: (x, first, p) in dups {
      RepeatedNames(dups, t.duplicateLabels, x);
    }
  }

  lemma FinishedParts(st: PState, source: string) returns (made: seq<Issue>)
    requires Finish(st, source).Ok?
    ensures
      var t, dups := Finish(st, source).value, BuildLabels(st.nodes).1;
      && t.issues == st.issues + made + BuildPhandles(st.nodes).1
      && |made| == |dups| == |t.duplicateLabels|
      && (forall i | 0 <= i < |dups| :: made[i] == DuplicateLabel(dups[i].0, dups[i].1, dups[i].2))
      && (forall i | 0 <= i < |dups| :: t.duplicateLabels[i] == dups[i].0)
  {
    hide BuildLabels, BuildPhandles, WithChildren;
    var dups := BuildLabels(st.nodes).1;
    made := seq(|dups|, i requires 0 <= i < |dups| => DuplicateLabel(dups[i].0, dups[i].1, dups[i].2));
  }

  lemma LabelIssues(dups: seq<(string, string, string)>, made: seq<Issue>)
    requires |made| == |dups|
    requires forall i | 0 <= i < |dups| :: made[i] == DuplicateLabel(dups[i].0, dups[i].1, dups[i].2)
    ensures forall issue | issue in made :: issue.DuplicateLabel?
    ensures forall x, first, p :: DuplicateLabel(x, first, p) in made <==> (x, first, p) in dups
  {
    forall x, first, p ensures DuplicateLabel(x, first, p) in made <==> (x, first, p) in dups {
      if (x, first, p) in dups {
        var i :| 0 <= i < |dups| && dups[i] == (x, first, p);
        assert made[i] == DuplicateLabel(x, first, p);
      }
      if DuplicateLabel(x, first, p) in made {
        var i :| 0 <= i < |dups| && made[i] == DuplicateLabel(x, first, p);
        assert dups[i] == (x, first, p);
      }
    }
  }

  lemma RepeatedNames(dups: seq<(string, string, string)>, names: seq<string>, x: string)
    requires |names| == |dups| && forall i | 0 <= i < |dups| :: names[i] == dups[i].0
    ensures x in names <==> exists first, p :: (x, first, p) in dups
  {
    if first, p :| (x, first, p) in dups {
      var i :| 0 <= i < |dups| && dups[i] == (x, first, p);
      assert names[i] == x;
    }
    if x in names {
      var i :| 0 <= i < |dups| && names[i] == x;
      assert (x, dups[i].1, dups[i].2) == dups[i];
    }
  }

  /** Every parsed tree has the tables of its own nodes, and reports on them exactly. */
  lemma ParsedTables(ts: seq<Token>, source: string)
    requires ParseTokens(ts, source).Ok?
    ensures TablesMatch(ParseTokens(ts, source).value)
  {
    hide TablesMatch, Finish, Childless, ParseTop;
    NewNodesHaveNoChildren(ts);
    FinishedTables(FinalState(ts), source);
  }
}
