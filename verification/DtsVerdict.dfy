/**
 The invariance results on parser output: every parsed tree meets the hypotheses the
 comparison theorems make, so they hold of any token list that parses.
 */
module DtsVerdict {
  import opened Wrappers
  import opened Ordering
  import opened DtsScanner
  import opened DtsValues
  import opened DtsTree
  import opened DtsGrammar
  import opened DtsShape
  import opened DtsTables
  import opened DtsCompare
  import opened DtsInvariance
  import opened DtsRenumber

  // ----- properties are stored under their own names -----

  ghost predicate KeyedNodes(nodes: Nodes) {
    forall path | path in nodes ::
      forall name | name in nodes[path].properties :: nodes[path].properties[name].name == name
  }

  lemma {:induction false} KeyedBlock(ts: seq<Token>, st: PState, path: string)
    requires st.pos <= |ts| && path in st.nodes && KeyedNodes(st.nodes)
    ensures KeyedNodes(ParseBlock(ts, st, path).nodes)
    decreases |ts| - st.pos, 1
  {
    hide ParseMember, ConsumeDirective, KeyedNodes;
    if st.pos < |ts| && !Is(ts, st.pos, "}") {
      if Is(ts, st.pos, ";") {
        KeyedBlock(ts, st.(pos := st.pos + 1), path);
      } else if IsDirective(ts, st.pos) {
        KeyedBlock(ts, ConsumeDirective(ts, st), path);
      } else {
        KeyedMember(ts, st, path);
        KeyedBlock(ts, ParseMember(ts, st, path), path);
      }
    }
  }

  lemma {:induction false} KeyedMember(ts: seq<Token>, st: PState, path: string)
    requires st.pos < |ts| && path in st.nodes && KeyedNodes(st.nodes)
    ensures KeyedNodes(ParseMember(ts, st, path).nodes)
    decreases |ts| - st.pos, 0
  {
    hide ParseBlock, JoinPath, ParseParts, TakeValue, SkipUntil, SkipBalanced, ReadHeader, Declare, SetProperty,
      KeyedNodes;
    var h := ReadHeader(ts, Header(st.pos, [], []));
    var name := LastOr(h.prefix, "");
    var line := ts[st.pos].line;
    if h.pos < |ts| && name != "" {
      var st1 := st.(pos := h.pos + 1);
      if ts[h.pos].value == "{" {
        var node := Node(JoinPath(path, name), name, h.labels, map[], [], line);
        KeyedDeclare(st1, node, Some(path), ts[h.pos].line);
        Declared(st1, node, Some(path), ts[h.pos].line);
        KeyedBlock(ts, Declare(st1, node, Some(path), ts[h.pos].line), node.path);
      } else if ts[h.pos].value == "=" {
        var v := TakeValue(ts, st1.pos, Depths(0, 0, 0));
        KeyedSet(st1.(pos := v.pos, issues := st1.issues + v.issues), path,
                 Property(name, ParseParts(v.values), false, line));
      } else {
        KeyedSet(st1, path, Property(name, [], true, line));
      }
    }
  }

  lemma KeyedDeclare(st: PState, node: Node, parent: Option<string>, line: nat)
    requires KeyedNodes(st.nodes) && node.properties == map[]
    ensures KeyedNodes(Declare(st, node, parent, line).nodes)
  {
  }

  lemma KeyedSet(st: PState, path: string, p: Property)
    requires KeyedNodes(st.nodes) && path in st.nodes
    ensures KeyedNodes(SetProperty(st, path, p.name, p).nodes)
  {
  }

  lemma {:induction false} KeyedTop(ts: seq<Token>, st: PState)
    requires st.pos <= |ts| && KeyedNodes(st.nodes)
    ensures KeyedNodes(ParseTop(ts, st).nodes)
    decreases |ts| - st.pos
  {
    hide ParseBlock, ConsumeDirective, JoinPath, SkipUntil, ReadHeader, Declare, KeyedNodes;
    if st.pos < |ts| {
      if Is(ts, st.pos, ";") {
        KeyedTop(ts, st.(pos := st.pos + 1));
      } else if IsDirective(ts, st.pos) {
        KeyedTop(ts, ConsumeDirective(ts, st));
      } else {
        var h := ReadHeader(ts, Header(st.pos, [], []));
        var name := LastOr(h.prefix, "/");
        if h.pos < |ts| && ts[h.pos].value == "{" {
          var path := if name == "/" then "/" else JoinPath("/", name);
          var parent := if name == "/" then None else Some("/");
          var node := Node(path, name, h.labels, map[], [], ts[st.pos].line);
          var st1 := st.(pos := h.pos + 1);
          KeyedDeclare(st1, node, parent, ts[h.pos].line);
          Declared(st1, node, parent, ts[h.pos].line);
          KeyedBlock(ts, Declare(st1, node, parent, ts[h.pos].line), path);
        }
        var st1 := ParseNode(ts, st, "/");
        KeyedTop(ts, if st1.pos < |ts| then AddIssue(st1, ExtraTopLevel(ts[st1.pos].line)) else st1);
      }
    }
  }

  // ----- the phandle table is the one the finished nodes define -----

  /** The two nodes have the same phandle properties. */
  predicate SamePhandleProperties(a: Node, b: Node) {
    forall name | name in PHANDLE_NAMES ::
      && (name in a.properties <==> name in b.properties)
      && (name in a.properties ==> a.properties[name] == b.properties[name])
  }

  lemma {:induction false} OnlyPhandlesMatter(table: seq<(int, string)>, a: Nodes, b: Nodes, paths: seq<string>)
    requires forall p | p in paths :: p in a && p in b && SamePhandleProperties(a[p], b[p])
    ensures AddPhandles(table, a, paths) == AddPhandles(table, b, paths)
    decreases |paths|
  {
    if paths != [] {
      assert paths[0] in paths;
      SamePhandles(table, a[paths[0]], b[paths[0]], paths[0]);
      hide AddNodePhandles;
      OnlyPhandlesMatter(AddNodePhandles(table, a[paths[0]], paths[0]).0, a, b, paths[1..]);
    }
  }

  lemma SamePhandles(table: seq<(int, string)>, a: Node, b: Node, path: string)
    requires SamePhandleProperties(a, b)
    ensures AddNodePhandles(table, a, path) == AddNodePhandles(table, b, path)
  {
    hide DirectNumbers, Lookup;
  }

  /** Every parsed tree is keyed by property name and indexed by its own phandles. */
  lemma ParsedTreesAreIndexed(ts: seq<Token>, source: string)
    requires ParseTokens(ts, source).Ok?
    ensures Keyed(ParseTokens(ts, source).value) && Indexed(ParseTokens(ts, source).value)
  {
    KeyedTop(ts, START);
    hide ParseTop, KeyedNodes;
    KeyedFinish(FinalState(ts), source);
    IndexedFinish(FinalState(ts), source);
  }

  lemma KeyedFinish(st: PState, source: string)
    requires KeyedNodes(st.nodes) && Finish(st, source).Ok?
    ensures Keyed(Finish(st, source).value)
  {
    hide BuildLabels, BuildPhandles;
  }

  lemma IndexedFinish(st: PState, source: string)
    requires Finish(st, source).Ok?
    ensures Indexed(Finish(st, source).value)
  {
    hide BuildLabels, AddPhandles, SortedSet;
    var nodes := WithChildren(st.nodes, st.children);
    assert nodes.Keys == st.nodes.Keys;
    OnlyPhandlesMatter([], st.nodes, nodes, SortedSet(nodes.Keys));
  }

  /** Renumbering the phandles of any parsed tree injectively is invisible exactly when it captures no cell. */
  lemma ParsedRenumbering(ts: seq<Token>, source: string, r: int -> int, c: Comparison, self: Comparison)
    requires ParseTokens(ts, source).Ok?
    requires Injective(r)
    requires
      var t := ParseTokens(ts, source).value;
      IsComparison(c, t, Renumber(t, r)) && IsComparison(self, t, t)
    ensures c.differences == [] <==> NoCapture(ParseTokens(ts, source).value, r)
    ensures c.differences == [] ==> c.unresolved == self.unresolved && StatusOf(c) == StatusOf(self)
    ensures
      var numbers := Invert(ParseTokens(ts, source).value.phandles);
      forall x :: x in c.renumbered <==>
        x.path in numbers && x.left == numbers[x.path] && x.right == r(x.left) && x.right != x.left
  {
    hide ParseTokens, Renumber, IsComparison, NoCapture, StatusOf;
    ParsedTreesAreIndexed(ts, source);
    RenumberingIsInvisible(ParseTokens(ts, source).value, r, c, self);
  }

  /** A path declared twice on either side keeps the verdict from being equivalence. */
  lemma RepeatedPathIsNeverEquivalent(ls: seq<Token>, rs: seq<Token>, left: string, right: string, c: Comparison)
    requires ParseTokens(ls, left).Ok? && ParseTokens(rs, right).Ok?
    requires IsComparison(c, ParseTokens(ls, left).value, ParseTokens(rs, right).value)
    requires !Distinct(Paths(FinalState(ls).log)) || !Distinct(Paths(FinalState(rs).log))
    ensures StatusOf(c) != EQUIVALENT
  {
    hide ParseTokens, Distinct, Paths, FinalState, IsDifference, IsUnresolved, IsRenumbered;
    RepeatedPathsAreReported(ls, left);
    RepeatedPathsAreReported(rs, right);
  }

  // ----- renumberings, read off the nodes -----

  predicate LastFor(table: seq<(int, string)>, i: nat, p: string) {
    forall j | i < j < |table| :: table[j].1 != p
  }

  /** The inverted table shows the last number entered for a path. */
  lemma {:induction false} LastEntry(table: seq<(int, string)>, p: string, n: int)
    ensures p in Invert(table) && Invert(table)[p] == n <==>
      exists i: nat :: i < |table| && table[i] == (n, p) && LastFor(table, i, p)
    decreases |table|
  {
    if table != [] {
      var k := |table| - 1;
      LastEntry(table[..k], p, n);
      if table[k].1 == p {
        assert forall i: nat | i < k :: !LastFor(table, i, p);
        assert LastFor(table, k, p);
      } else {
        assert forall i: nat | i < k :: LastFor(table, i, p) <==> LastFor(table[..k], i, p);
      }
    }
  }

  lemma ShownExactly(nodes: Nodes, table: seq<(int, string)>, p: string, n: int)
    requires PhandlesOf(nodes, table)
    ensures p in Invert(table) && Invert(table)[p] == n <==> ShownNumber(nodes, p, n)
  {
    assert FirstOwner(nodes, n, p) ==> p in nodes;
    hide Invert, FirstOwner, Lookup, StrLess;
    LastEntry(table, p, n);
    StrLessIsAsymmetric();
    if i: nat :| i < |table| && table[i] == (n, p) && LastFor(table, i, p) {
      assert (n, p) in table;
      forall m | HasNumber(nodes[p].properties, "linux,phandle", m) && FirstOwner(nodes, m, p)
        ensures HasNumber(nodes[p].properties, "linux,phandle", n)
      {
        assert (m, p) in table;
        var j :| 0 <= j < |table| && table[j] == (m, p);
        if j < i {
          assert Before(nodes, table[j], table[i]);
        }
      }
    }
    if ShownNumber(nodes, p, n) {
      assert (n, p) in table;
      var i :| 0 <= i < |table| && table[i] == (n, p);
      forall j | i < j < |table| ensures table[j].1 != p {
        assert Before(nodes, table[i], table[j]);
        assert table[j] in table;
      }
      assert LastFor(table, i, p);
    }
  }

  /**
   Between parsed trees a node is reported as renumbered exactly when it is shown under different
   numbers, and a phandle as added or removed exactly when one side alone shows a number for its path.
   */
  lemma RenumberedExactly(ls: seq<Token>, rs: seq<Token>, left: string, right: string, c: Comparison)
    requires ParseTokens(ls, left).Ok? && ParseTokens(rs, right).Ok?
    requires IsComparison(c, ParseTokens(ls, left).value, ParseTokens(rs, right).value)
    ensures
      var l, r := c.left.nodes, c.right.nodes;
      && (forall x :: x in c.renumbered <==>
            ShownNumber(l, x.path, x.left) && ShownNumber(r, x.path, x.right) && x.left != x.right)
      && (forall p, n :: Difference(PhandleRemoved, p, Some("phandle"), Phandle(n), Absent) in c.differences <==>
            ShownNumber(l, p, n) && forall m :: !ShownNumber(r, p, m))
      && (forall p, n :: Difference(PhandleAdded, p, Some("phandle"), Absent, Phandle(n)) in c.differences <==>
            ShownNumber(r, p, n) && forall m :: !ShownNumber(l, p, m))
  {
    hide ParseTokens, ShownNumber, Invert, IsDifference;
    ParsedTables(ls, left);
    ParsedTables(rs, right);
    hide PhandlesOf, LabelsOf;
    var (l, r) := (c.left, c.right);
    forall p, n
      ensures p in Invert(l.phandles) && Invert(l.phandles)[p] == n <==> ShownNumber(l.nodes, p, n)
      ensures p in Invert(r.phandles) && Invert(r.phandles)[p] == n <==> ShownNumber(r.nodes, p, n)
    {
      ShownExactly(l.nodes, l.phandles, p, n);
      ShownExactly(r.nodes, r.phandles, p, n);
    }
    forall p, n
      ensures Difference(PhandleRemoved, p, Some("phandle"), Phandle(n), Absent) in c.differences <==>
        ShownNumber(l.nodes, p, n) && forall m :: !ShownNumber(r.nodes, p, m)
      ensures Difference(PhandleAdded, p, Some("phandle"), Absent, Phandle(n)) in c.differences <==>
        ShownNumber(r.nodes, p, n) && forall m :: !ShownNumber(l.nodes, p, m)
    {
      PhandleDifferences(l, r, p, n);
      ShownAtAll(l.nodes, l.phandles, p);
      ShownAtAll(r.nodes, r.phandles, p);
    }
  }

  lemma ShownAtAll(nodes: Nodes, table: seq<(int, string)>, p: string)
    requires PhandlesOf(nodes, table)
    ensures p in Invert(table) <==> exists n :: ShownNumber(nodes, p, n)
  {
    hide Invert, ShownNumber, PhandlesOf;
    if p in Invert(table) {
      ShownExactly(nodes, table, p, Invert(table)[p]);
    }
    if n :| ShownNumber(nodes, p, n) {
      ShownExactly(nodes, table, p, n);
    }
  }

  lemma PhandleDifferences(l: Tree, r: Tree, p: string, n: int)
    ensures IsDifference(l, r, Difference(PhandleRemoved, p, Some("phandle"), Phandle(n), Absent)) <==>
      p in Invert(l.phandles) && Invert(l.phandles)[p] == n && p !in Invert(r.phandles)
    ensures IsDifference(l, r, Difference(PhandleAdded, p, Some("phandle"), Absent, Phandle(n))) <==>
      p in Invert(r.phandles) && Invert(r.phandles)[p] == n && p !in Invert(l.phandles)
  {
    hide Invert;
  }
}
