/**
 Names with commas. A comma is punctuation and the parser keeps the last word of a header, so a
 property or node written `vendor,x` is stored as `x`: when the written name survives, which
 statement a stored property comes from, and what the comparison can no longer see.
 */
module DtsNames {
  import opened Wrappers
  import opened Ordering
  import opened DtsScanner
  import opened DtsValues
  import opened DtsValueRoundTrip
  import opened DtsTree
  import opened DtsGrammar
  import opened DtsShape
  import opened DtsSource
  import opened DtsFile
  import opened DtsCanonical
  import opened DtsCompare
  import opened DtsMeaning
  import opened DtsInvariance

  // ----- which name is stored -----

  /** A written name is a word, and so a possible stored name, only when nothing stands in front. */
  lemma FullNameIsWord(front: seq<string>, name: string)
    requires (forall w | w in front :: IsWord(w)) && IsWord(name)
    ensures IsWord(FullName(front, name)) <==> front == []
    ensures FullName(front, name) == name <==> front == []
  {
    if front != [] {
      var text := FullName(front, name);
      assert text[|front[0]|] == ',' && EndsWord(',');
      assert text[|front[0]|] in text;
      assert forall c | c in name :: c != ',';
    }
  }

  /** The stored names are the last words, and each holds the last statement that ends in it. */
  lemma {:induction false} LastStatementWins(ss: seq<Statement>, name: string)
    ensures name in Properties(ss) <==> exists i :: 0 <= i < |ss| && ss[i].name == name
    ensures forall i | 0 <= i < |ss| && ss[i].name == name && (forall j | i < j < |ss| :: ss[j].name != name) ::
      name in Properties(ss) && Properties(ss)[name] == StatementProperty(ss[i], 1)
  {
    hide StatementProperty;
    if ss != [] {
      var n := |ss| - 1;
      LastStatementWins(ss[..n], name);
      assert forall i | 0 <= i < n :: ss[..n][i] == ss[i];
    }
  }

  /**
   In the tree read back from a printed source, a statement's property stands under its last word;
   the name as written is found there exactly when it is one word.
   */
  lemma NameSurvivesExactly(root: Block, source: string, v: Visit, s: Statement)
    requires GoodRoot(root) && DistinctSiblings(root) && v in AllVisits(root) && s in v.block.statements
    ensures
      var r := ParseText(FileText(root), source);
      && r.Ok? && v.Path() in r.value.nodes
      && s.name in r.value.nodes[v.Path()].properties
      && (FullName(s.front, s.name) in r.value.nodes[v.Path()].properties <==> s.front == [])
  {
    hide ParseText, FileText, DistinctSiblings, Visits, Visit.Path, FullName, Properties;
    SourceReadsBack(root, source);
    VisitedIsGood(None, root, v);
    var ss := v.block.statements;
    var full := FullName(s.front, s.name);
    assert GoodStatement(s);
    FullNameIsWord(s.front, s.name);
    LastStatementWins(ss, s.name);
    LastStatementWins(ss, full);
    if i :| 0 <= i < |ss| && ss[i].name == full {
      assert ss[i] in ss && GoodStatement(ss[i]);
    }
    var k :| 0 <= k < |ss| && ss[k] == s;
    assert ss[k].name == s.name;
  }

  lemma {:induction false} VisitedIsGood(parent: Option<string>, b: Block, v: Visit)
    requires GoodBody(b) && v in Visits(parent, b)
    ensures forall s | s in v.block.statements :: GoodStatement(s)
    decreases b
  {
    hide IsWord, GoodStatement, BlockPath;
    if v != Visit(parent, b) {
      var c := ChildVisitedIn(BlockPath(parent, b), b, b.children, v);
      VisitedIsGood(Some(BlockPath(parent, b)), c, v);
    }
  }

  // ----- what is forgotten -----

  /** The source with everything but the last word of each name taken away. */
  function Bare(b: Block): Block
    decreases b
  {
    Block(b.labels, [], b.name, BareStatements(b.statements),
          seq(|b.children|, i requires 0 <= i < |b.children| => Bare(b.children[i])))
  }

  function BareStatements(ss: seq<Statement>): (r: seq<Statement>)
    ensures |r| == |ss| && forall i | 0 <= i < |ss| :: r[i] == ss[i].(front := [])
  {
    seq(|ss|, i requires 0 <= i < |ss| => ss[i].(front := []))
  }

  lemma {:induction false} StatementsForget(st: PState, path: string, ss: seq<Statement>, line: nat)
    requires path in st.nodes
    ensures EnterStatements(st, path, BareStatements(ss), line) == EnterStatements(st, path, ss, line)
    decreases |ss|
  {
    hide SetProperty;
    if ss != [] {
      assert StatementProperty(BareStatements(ss)[0], line) == StatementProperty(ss[0], line);
      assert BareStatements(ss)[1..] == BareStatements(ss[1..]);
      SetKeepsCursor(st, path, ss[0].name, StatementProperty(ss[0], line));
      StatementsForget(SetProperty(st, path, ss[0].name, StatementProperty(ss[0], line)), path, ss[1..], line);
    }
  }

  /** The parser state behind a block does not depend on the words in front. */
  lemma {:induction false} EnterForgets(st: PState, parent: Option<string>, b: Block, line: nat)
    ensures Enter(st, parent, Bare(b), line) == Enter(st, parent, b, line)
    decreases b, 1
  {
    hide EnterStatements, EnterBlocks;
    var path := BlockPath(parent, b);
    var st1 := Header0(st, parent, b, line);
    assert Header0(st, parent, Bare(b), line) == st1;
    StatementsForget(st1, path, b.statements, line);
    EnterBlocksForgets(EnterStatements(st1, path, b.statements, line), path, b, Bare(b), 0, line);
  }

  lemma {:induction false} EnterBlocksForgets(st: PState, path: string, parent: Block, bare: Block, k: nat, line: nat)
    requires bare == Bare(parent) && k <= |parent.children|
    ensures EnterBlocks(st, path, bare, bare.children[k..], line) == EnterBlocks(st, path, parent, parent.children[k..], line)
    decreases parent, 0, |parent.children| - k
  {
    hide Enter;
    if k < |parent.children| {
      var head := parent.children[k];
      assert bare.children[k] == Bare(head);
      assert parent.children[k..][0] == head && bare.children[k..][0] == Bare(head);
      assert parent.children[k..][1..] == parent.children[k + 1..] && bare.children[k..][1..] == bare.children[k + 1..];
      EnterForgets(st, Some(path), head, line);
      EnterBlocksForgets(Enter(st, Some(path), head, line), path, parent, bare, k + 1, line);
    } else {
      assert parent.children[k..] == [] && bare.children[k..] == [];
    }
  }

  lemma FinishIgnoresCursor(st: PState, pos: nat, source: string)
    ensures Finish(st.(pos := pos), source) == Finish(st, source)
  {
    hide BuildLabels, BuildPhandles, WithChildren;
  }

  lemma FinishedSource(st: PState, left: string, right: string)
    ensures Finish(st, right) ==
      if Finish(st, left).Ok? then Ok(Finish(st, left).value.(source := right)) else Finish(st, left)
  {
    hide BuildLabels, BuildPhandles, WithChildren;
  }

  lemma ParsedFile(root: Block, source: string)
    requires GoodRoot(root)
    ensures ParseText(FileText(root), source) == Finish(Enter(START, None, root, 1), source)
  {
    hide Lex, ParseTop, Enter, Finish, FileText, FileTokens, GoodRoot;
    ScansFile(root);
    ParsesFile(root);
    ParsedIsFinished(FileTokens(root, 1), source);
    FinishIgnoresCursor(Enter(START, None, root, 1), |FileTokens(root, 1)|, source);
  }

  /** Sources that differ only in words in front of names parse to the same tree. */
  lemma FrontWordsAreForgotten(a: Block, b: Block, left: string, right: string)
    requires GoodRoot(a) && GoodRoot(b) && Bare(a) == Bare(b)
    ensures
      var l, r := ParseText(FileText(a), left), ParseText(FileText(b), right);
      l.Ok? && r == Ok(l.value.(source := right))
  {
    hide ParseText, FileText, Finish, Enter, GoodBody, Bare, DistinctSiblings;
    ParsedFile(a, left);
    ParsedFile(b, right);
    EnterForgets(START, None, a, 1);
    EnterForgets(START, None, b, 1);
    FinishedSource(Enter(START, None, a, 1), left, right);
    RepeatedSiblingsAreReported(a, left);
  }

  /** Their comparison lists nothing, and calls them equivalent unless a parse left a caveat or a reference is open. */
  lemma FrontWordsAreInvisible(a: Block, b: Block, left: string, right: string, c: Comparison)
    requires GoodRoot(a) && GoodRoot(b) && Bare(a) == Bare(b)
    requires ParseText(FileText(a), left).Ok? && ParseText(FileText(b), right).Ok?
    requires IsComparison(c, ParseText(FileText(a), left).value, ParseText(FileText(b), right).value)
    ensures c.differences == [] && c.renumbered == []
    ensures StatusOf(c) == EQUIVALENT <==> !HasCaveats(c.left) && c.unresolved == {}
  {
    hide ParseText, FileText, GoodRoot, Bare, IsDifference, IsUnresolved, Invert, NoDifference, SameTrees;
    FrontWordsAreForgotten(a, b, left, right);
    OtherSource(c.left, right);
    EmptyExactly(c, c.left, c.right);
    SomeMember(c.renumbered);
  }

  /** A tree differs nowhere from itself under another file name. */
  lemma OtherSource(t: Tree, source: string)
    ensures NoDifference(t, t.(source := source))
  {
    hide CanonicalValue, RawText, Invert, ValuesAgree;
    var u := t.(source := source);
    forall d ensures !IsDifference(t, u, d) {
      if d.property.Some? && IsPropertyDifference(t, u, d.path, d.property.value, d) {
        var p := PropertyAt(t, d.path, d.property.value);
        SameValueElsewhere(t, p, source);
        ValueMeaning(t, p, u, p);
      }
    }
  }

  lemma SameValueElsewhere(t: Tree, p: Property, source: string)
    ensures ValuesAgree(t, p, t.(source := source), p)
  {
    hide NumericRefPosition, Lookup, Flatten;
  }

  // ----- two sources that no verdict tells apart -----

  function OneFlag(vendor: string): Block {
    Block([], [], "/", [Flag([vendor], "b")], [])
  }

  const FLAG_NODE: Node := Node("/", "/", [], map["b" := Property("b", [], true, 1)], [], 1)

  lemma OneFlagIsGood(vendor: string)
    requires IsWord(vendor)
    ensures GoodRoot(OneFlag(vendor)) && Bare(OneFlag(vendor)) == Block([], [], "/", [Flag([], "b")], [])
  {
    assert IsWord("b");
  }

  lemma OneFlagEnters(vendor: string)
    ensures
      var st := Enter(START, None, OneFlag(vendor), 1);
      st.nodes == map["/" := FLAG_NODE] && st.children == map[] && st.issues == [] && st.unsupported == [] && st.duplicates == []
  {
    var b := OneFlag(vendor);
    var st0 := Header0(START, None, b, 1);
    assert b.statements[1..] == [];
    assert EnterStatements(st0, "/", b.statements, 1) == SetProperty(st0, "/", "b", Property("b", [], true, 1));
  }

  lemma OneFlagLabels()
    ensures BuildLabels(map["/" := FLAG_NODE]) == (map[], [])
  {
    var nodes := map["/" := FLAG_NODE];
    OnePath();
    hide WithPath, SortedSet;
    assert AddNodeLabels(map[], FLAG_NODE.labels, "/") == (map[], []);
    NoPath();
    assert ["/"][1..] == [];
    assert AddLabels(map[], nodes, []) == (map[], []);
    var none: seq<(string, string, string)> := [];
    assert none + none == none;
    assert AddLabels(map[], nodes, ["/"]) == (map[], none);
  }

  lemma OneFlagPhandles()
    ensures BuildPhandles(map["/" := FLAG_NODE]) == ([], [])
  {
    var nodes := map["/" := FLAG_NODE];
    OnePath();
    hide SortedSet;
    assert |"b"| != |"phandle"| && |"b"| != |"linux,phandle"|;
    assert forall name :: name in FLAG_NODE.properties ==> name == "b";
    assert AddPhandle([], FLAG_NODE, "/", "phandle") == ([], []);
    assert AddPhandle([], FLAG_NODE, "/", "linux,phandle") == ([], []);
    var none: seq<Issue> := [];
    assert none + none == none && PHANDLE_NAMES[0] == "phandle" && PHANDLE_NAMES[1] == "linux,phandle";
    assert AddNodePhandles([], FLAG_NODE, "/") == ([], none);
    assert ["/"][1..] == [];
    assert AddPhandles([], nodes, []) == ([], []);
    assert AddPhandles([], nodes, ["/"]) == ([], none);
  }

  lemma NoPath()
    ensures WithPath([], "/") == []
  {
  }

  lemma OnePath()
    ensures SortedSet(map["/" := FLAG_NODE].Keys) == ["/"]
  {
    StrLessIsAsymmetric();
    assert map["/" := FLAG_NODE].Keys == {"/"};
    SortedListingUnique(SortedSet({"/"}), ["/"], StrLess);
  }

  /** `a,b` against `c,b`: different sources, one tree, no issue, and the verdict EQUIVALENT. */
  lemma VendorIsLost()
    ensures
      var a, c := OneFlag("a"), OneFlag("c");
      var l, r := ParseText(FileText(a), "l"), ParseText(FileText(c), "r");
      && FileText(a) != FileText(c)
      && l.Ok? && l.value.issues == [] && r == Ok(l.value.(source := "r"))
      && forall d | IsComparison(d, l.value, r.value) :: StatusOf(d) == EQUIVALENT
  {
    hide ParseText, FileText, GoodRoot, Bare, Enter, Finish, IsComparison, OneFlag;
    var a, c := OneFlag("a"), OneFlag("c");
    TextsDiffer();
    OneFlagIsGood("a");
    OneFlagIsGood("c");
    FrontWordsAreForgotten(a, c, "l", "r");
    ParsedFile(a, "l");
    OneFlagEnters("a");
    FinishedFlag(Enter(START, None, a, 1), "l");
    var l, r := ParseText(FileText(a), "l").value, ParseText(FileText(c), "r").value;
    forall d | IsComparison(d, l, r) ensures StatusOf(d) == EQUIVALENT {
      FrontWordsAreInvisible(a, c, "l", "r", d);
      NothingOpen(l, "r", d);
    }
  }

  lemma TextsDiffer()
    ensures FileText(OneFlag("a")) != FileText(OneFlag("c"))
  {
    FlagText("a");
    FlagText("c");
    hide FileText, OneFlag;
    var front, tail := "/dts-v1/; / { ", ",b; }; ";
    assert (front + ("a" + tail))[|front|] == 'a';
    assert (front + ("c" + tail))[|front|] == 'c';
  }

  lemma FlagText(vendor: string)
    ensures FileText(OneFlag(vendor)) == "/dts-v1/; / { " + (vendor + ",b; }; ")
  {
    var flag := Flag([vendor], "b");
    assert FullName([vendor], "b") == vendor + ",b" by {
      assert FrontText([vendor][1..]) == "";
    }
    assert StatementText(flag) == vendor + ",b; ";
    assert StatementsText([flag][1..]) == "" && StatementsText([flag]) == StatementText(flag);
    hide StatementText, StatementsText;
    assert BlocksText([]) == "" && LabelsText([]) == "" && FullName([], "/") == "/";
    assert BlockText(OneFlag(vendor)) == "/" + " { " + (vendor + ",b; ") + "}; ";
  }

  lemma FinishedFlag(st: PState, source: string)
    requires st.nodes == map["/" := FLAG_NODE] && st.children == map[]
    requires st.issues == [] && st.unsupported == [] && st.duplicates == []
    ensures Finish(st, source) == Ok(Tree(source, map["/" := FLAG_NODE], [], map[], [], [], [], []))
  {
    OneFlagLabels();
    OneFlagPhandles();
    hide BuildLabels, BuildPhandles;
    assert WithChildren(st.nodes, st.children) == st.nodes;
    var t := Finish(st, source).value;
    assert t.issues == [] && t.duplicateLabels == [];
  }

  lemma NothingOpen(l: Tree, source: string, d: Comparison)
    requires l.nodes == map["/" := FLAG_NODE] && IsComparison(d, l, l.(source := source))
    ensures d.left == l && d.unresolved == {}
  {
    hide IsDifference, IsRenumbered;
  }
}
