/**
 When a parsed tree carries no caveat at all: its tokens divide into understood statements, its paths
 differ, its phandles are single numbers with one owner each, and no label stands on two nodes.
 */
module DtsCaveats {
  import opened Wrappers
  import opened Ordering
  import opened DtsScanner
  import opened DtsTree
  import opened DtsGrammar
  import opened DtsSyntax
  import opened DtsSyntaxExact
  import opened DtsCompare
  import Tables = DtsTables

  ghost predicate ShareNumber(nodes: Nodes, p: string, q: string, n: int) {
    p in nodes && q in nodes && p != q && Tables.Owns(nodes[p].properties, n) && Tables.Owns(nodes[q].properties, n)
  }

  predicate ShareLabel(nodes: Nodes, p: string, q: string, x: string) {
    p in nodes && q in nodes && p != q && x in nodes[p].labels && x in nodes[q].labels
  }

  /** One number in each phandle property, and no number and no label on two nodes. */
  ghost predicate TablesAreClean(nodes: Nodes) {
    && (forall p, name | p in nodes :: !Tables.Malformed(nodes[p].properties, name))
    && (forall p, q, n :: !ShareNumber(nodes, p, q, n))
    && (forall p, q, x :: !ShareLabel(nodes, p, q, x))
  }

  predicate AboutTables(i: Issue) {
    i.NonScalarPhandle? || i.DuplicatePhandle? || i.DuplicateLabel?
  }

  lemma RepeatsShare(t: Tree, x: string)
    requires Tables.TablesMatch(t)
    ensures x in t.duplicateLabels ==> exists p, q :: ShareLabel(t.nodes, p, q, x)
  {
    hide Tables.PhandlesOf, Tables.LabelsOf, Tables.Malformed, Tables.Owns, Tables.FirstOwner, Tables.FirstLabelled;
    if x in t.duplicateLabels {
      var p, q :| p in t.nodes && q in t.nodes && p != q && x in t.nodes[p].labels && x in t.nodes[q].labels;
      assert ShareLabel(t.nodes, p, q, x);
    }
  }

  lemma CleanTablesReportNothing(t: Tree)
    requires Tables.TablesMatch(t) && TablesAreClean(t.nodes)
    ensures t.duplicateLabels == [] && forall i | i in t.issues :: !AboutTables(i)
  {
    hide Tables.Malformed, Tables.Owns, Tables.PhandlesOf, Tables.LabelsOf;
    forall n, first, p ensures DuplicatePhandle(n, first, p) !in t.issues {
      assert DuplicatePhandle(n, first, p) in t.issues ==> ShareNumber(t.nodes, p, first, n);
    }
    forall x, first, p ensures DuplicateLabel(x, first, p) !in t.issues {
      assert DuplicateLabel(x, first, p) in t.issues ==> ShareLabel(t.nodes, p, first, x);
    }
    forall x ensures x !in t.duplicateLabels {
      RepeatsShare(t, x);
    }
    SomeMember(t.duplicateLabels);
  }

  lemma UncleanTablesReport(t: Tree)
    requires Tables.TablesMatch(t) && !TablesAreClean(t.nodes)
    ensures t.duplicateLabels != [] || exists i :: i in t.issues && AboutTables(i)
  {
    hide Tables.Malformed, Tables.Owns, Tables.FirstOwner, Tables.PhandlesOf, Tables.LabelsOf;
    if p, name :| p in t.nodes && Tables.Malformed(t.nodes[p].properties, name) {
      assert NonScalarPhandle(name, p) in t.issues;
    } else if p, q, n :| ShareNumber(t.nodes, p, q, n) {
      var first := FirstOf(t, p, n);
      assert DuplicatePhandle(n, first, if first == p then q else p) in t.issues;
    } else {
      var p, q, x :| ShareLabel(t.nodes, p, q, x);
      assert x in t.duplicateLabels;
    }
  }

  /** A number with an owner has a first one. */
  lemma FirstOf(t: Tree, p: string, n: int) returns (first: string)
    requires p in t.nodes && Tables.Owns(t.nodes[p].properties, n)
    ensures Tables.FirstOwner(t.nodes, n, first)
  {
    hide Tables.Owns;
    var owners := set q | q in t.nodes && Tables.Owns(t.nodes[q].properties, n);
    assert p in owners;
    first := LeastString(owners);
    assert first in owners;
    forall q | q in t.nodes && Tables.Owns(t.nodes[q].properties, n) ensures q == first || StrLess(first, q) {
      assert q in owners;
    }
  }

  /** No issue of any kind. */
  lemma IssuesByKind(issues: seq<Issue>)
    ensures issues == [] <==> NoSyntax(issues) && forall i | i in issues :: !AboutTables(i) && !i.DuplicatePath?
  {
    if issues != [] {
      assert issues[0] in issues;
    }
  }

  lemma RepeatsAreListed(ts: seq<Token>, source: string, p: string, line: nat)
    requires ParseTokens(ts, source).Ok? && DuplicatePath(p, line) in ParseTokens(ts, source).value.issues
    ensures p in ParseTokens(ts, source).value.duplicatePaths
  {
    var st := ParseTop(ts, START);
    var made := Tables.FinishedParts(st, source);
    var bad := BuildPhandles(st.nodes).1;
    forall i | i in bad ensures !i.DuplicatePath? {
      Tables.PhandleReports(st.nodes, i);
    }
    Tables.LabelIssues(BuildLabels(st.nodes).1, made);
    TopFollows(ts, START);
    hide ParseTop, BuildLabels, BuildPhandles, WithChildren;
    assert DuplicatePath(p, line) in st.issues;
  }

  /** The exact condition for a tree without caveats, which an EQUIVALENT verdict demands of both sides. */
  lemma CaveatFreeExactly(ts: seq<Token>, source: string)
    requires ParseTokens(ts, source).Ok?
    ensures
      var t := ParseTokens(ts, source).value;
      !HasCaveats(t) <==>
        && (exists front, last, at :: SourceFits(ts, 0, front, last, at) && SourceNotes(ts, front, last, at) == [])
        && t.duplicatePaths == [] && TablesAreClean(t.nodes)
  {
    var t := ParseTokens(ts, source).value;
    SyntaxExactly(ts, source);
    Tables.ParsedTables(ts, source);
    IssuesByKind(t.issues);
    forall p, line | DuplicatePath(p, line) in t.issues ensures p in t.duplicatePaths {
      RepeatsAreListed(ts, source, p, line);
    }
    hide ParseTokens, SourceFits, SourceNotes, NoSyntax, AboutTables, TablesAreClean, Tables.TablesMatch;
    if TablesAreClean(t.nodes) {
      CleanTablesReportNothing(t);
    } else {
      UncleanTablesReport(t);
    }
  }
}
