/**
 The syntax of a source as a division of its tokens into statements, read off the tokens alone: what a
 header names, where a directive ends, how blocks nest. The parser reports nothing about the syntax
 exactly when such a division exists.
 */
module DtsSyntax {
  import opened Wrappers
  import opened DtsScanner
  import opened DtsTree
  import opened DtsGrammar
  import opened DtsBrackets

  // ----- headers -----

  /** No token of the stretch ends a header. */
  predicate Words(ts: seq<Token>, lo: nat, hi: nat)
    requires hi <= |ts|
  {
    forall k | lo <= k < hi :: ts[k].value !in {"{", "=", ";"}
  }

  /** Words less colons in a stretch of a header. */
  function Stacked(ts: seq<Token>, lo: nat, hi: nat): int
    requires lo <= hi <= |ts|
    decreases hi
  {
    if lo == hi then 0 else Stacked(ts, lo, hi - 1) + if ts[hi - 1].value == ":" then -1 else 1
  }

  /** Every colon makes a label of the last word in front that is none yet; this word is left. */
  ghost predicate Stays(ts: seq<Token>, k: nat, hi: nat)
    requires k < hi <= |ts|
  {
    ts[k].value != ":" && forall j: nat | k < j <= hi :: Stacked(ts, k, j) > 0
  }

  /** The word is left, and nothing behind it. */
  ghost predicate IsLastWord(ts: seq<Token>, k: nat, hi: nat)
    requires k < hi <= |ts|
  {
    Stays(ts, k, hi) && Stacked(ts, k, hi) == 1
  }

  ghost predicate Named(ts: seq<Token>, lo: nat, hi: nat)
    requires lo <= hi <= |ts|
  {
    exists k: nat :: lo <= k < hi && IsLastWord(ts, k, hi) && ts[k].value != ""
  }

  // ----- directives -----

  /** Openings less closings in a stretch that is skipped. */
  function Nesting(ts: seq<Token>, lo: nat, hi: nat): int
    requires lo <= hi <= |ts|
    decreases hi
  {
    if lo == hi then 0
    else
      Nesting(ts, lo, hi - 1)
        + if OpensText(ts[hi - 1].value) then 1 else if ClosesText(ts[hi - 1].value) then -1 else 0
  }

  /** A semicolon with no bracket open since `lo`. */
  ghost predicate Stops(ts: seq<Token>, lo: nat, k: nat)
    requires lo <= k < |ts|
  {
    ts[k].value == ";" && forall j: nat | lo <= j <= k :: Nesting(ts, j, k) <= 0
  }

  ghost predicate FirstStop(ts: seq<Token>, lo: nat, k: nat) {
    lo <= k < |ts| && Stops(ts, lo, k) && forall j | lo <= j < k :: !Stops(ts, lo, j)
  }

  /** Braces that are open from `lo` on and close at `hi`. */
  ghost predicate Braced(ts: seq<Token>, lo: nat, hi: nat) {
    && lo < hi <= |ts| && Excess(ts, lo, hi, "{", "}") == 0
    && forall k: nat | lo < k < hi :: Excess(ts, lo, k, "{", "}") > 0
  }

  /** Braces that are open from `lo` to the end. */
  ghost predicate Unbraced(ts: seq<Token>, lo: nat) {
    forall k: nat | lo < k <= |ts| :: Excess(ts, lo, k, "{", "}") > 0
  }

  /** The slash, the name if there is one, and a slash right behind it. */
  function HeadEnd(ts: seq<Token>, at: nat): (r: nat)
    requires IsDirective(ts, at)
    ensures at < r <= |ts|
  {
    if ts[at + 1].value == ";" then at + 1 else if Is(ts, at + 2, "/") then at + 3 else at + 2
  }

  function DirectiveWord(ts: seq<Token>, at: nat): string
    requires IsDirective(ts, at)
  {
    if ts[at + 1].value == ";" then ""
    else if Is(ts, at + 2, "/") then ts[at + 1].value + "/" else ts[at + 1].value
  }

  predicate Understood(ts: seq<Token>, at: nat)
    requires IsDirective(ts, at)
  {
    DirectiveWord(ts, at) in {"dts-v1/", "plugin/", "memreserve/"}
  }

  /** The caveat a directive leaves. */
  function DirectiveNotes(ts: seq<Token>, at: nat): seq<Unsupported>
    requires IsDirective(ts, at)
  {
    if Understood(ts, at) then [] else [Unsupported(DirectiveWord(ts, at), ts[at].line)]
  }

  /** The tokens end before the directive does. */
  ghost predicate Unfinished(ts: seq<Token>, at: nat) {
    && IsDirective(ts, at)
    && var lo := HeadEnd(ts, at);
       || (forall k: nat | lo <= k < |ts| :: !Stops(ts, lo, k))
       || (!Understood(ts, at) && exists semi: nat :: FirstStop(ts, lo, semi) && Is(ts, semi + 1, "{") && Unbraced(ts, semi + 1))
  }

  // ----- statements -----

  /** A statement by the positions of its tokens. */
  datatype Phrase =
    | Empty(at: nat)
    | Directive(at: nat, semi: nat, end: nat)
    | Flag(at: nat, semi: nat)
    | Assignment(at: nat, eq: nat, semi: nat)
    | Block(at: nat, open: nat, body: seq<Phrase>, close: nat, end: nat)
  {
    function End(): nat {
      match this
      case Empty(at) => at + 1
      case Directive(_, _, end) => end
      case Flag(_, semi) => semi + 1
      case Assignment(_, _, semi) => semi + 1
      case Block(_, _, _, _, end) => end
    }
  }

  ghost predicate DirectiveFits(ts: seq<Token>, p: Phrase)
    requires p.Directive?
  {
    && IsDirective(ts, p.at) && FirstStop(ts, HeadEnd(ts, p.at), p.semi)
    && if !Understood(ts, p.at) && Is(ts, p.semi + 1, "{") then Braced(ts, p.semi + 1, p.end) else p.end == p.semi + 1
  }

  /** Words from `at` to the token that ends them. */
  predicate HeaderFits(ts: seq<Token>, at: nat, stop: nat, end: string) {
    at <= stop < |ts| && Words(ts, at, stop) && ts[stop].value == end
  }

  /** A header inside a block names something; a closing brace or the slash of a directive starts none. */
  ghost predicate MemberHeader(ts: seq<Token>, at: nat, stop: nat, end: string) {
    && HeaderFits(ts, at, stop, end) && Named(ts, at, stop)
    && ts[at].value != "}" && !IsDirective(ts, at)
  }

  /** A value up to the first semicolon outside its brackets, none of which closes nothing. */
  ghost predicate ValueFits(ts: seq<Token>, lo: nat, semi: nat) {
    && lo <= semi < |ts| && EndsValue(ts, lo, semi)
    && forall k | lo <= k < semi :: !EndsValue(ts, lo, k) && !ClosesNothing(ts, lo, k)
  }

  /** The body of a block, its closing brace and a semicolon right behind it. */
  ghost predicate BlockFits(ts: seq<Token>, p: Phrase)
    requires p.Block?
    decreases p, 0
  {
    && BodyFits(ts, p.body, p.open + 1, p.close) && Is(ts, p.close, "}")
    && p.end == if Is(ts, p.close + 1, ";") then p.close + 2 else p.close + 1
  }

  ghost predicate Fits(ts: seq<Token>, p: Phrase)
    decreases p, 1
  {
    match p
    case Empty(at) => Is(ts, at, ";")
    case Directive(_, _, _) => DirectiveFits(ts, p)
    case Flag(at, semi) => MemberHeader(ts, at, semi, ";")
    case Assignment(at, eq, semi) => MemberHeader(ts, at, eq, "=") && ValueFits(ts, eq + 1, semi)
    case Block(at, open, _, _, _) => MemberHeader(ts, at, open, "{") && BlockFits(ts, p)
  }

  /** Statements one behind the other. */
  ghost predicate BodyFits(ts: seq<Token>, ps: seq<Phrase>, lo: nat, hi: nat)
    decreases ps, 2
  {
    if ps == [] then lo == hi
    else ps[0].at == lo && Fits(ts, ps[0]) && BodyFits(ts, ps[1..], ps[0].End(), hi)
  }

  function Notes(ts: seq<Token>, p: Phrase): seq<Unsupported>
    decreases p, 1
  {
    match p
    case Directive(at, _, _) => if IsDirective(ts, at) then DirectiveNotes(ts, at) else []
    case Block(_, _, body, _, _) => BodyNotes(ts, body)
    case _ => []
  }

  function BodyNotes(ts: seq<Token>, ps: seq<Phrase>): seq<Unsupported>
    decreases ps, 2
  {
    if ps == [] then [] else Notes(ts, ps[0]) + BodyNotes(ts, ps[1..])
  }

  // ----- sources -----

  /** What comes behind the directives and semicolons in front. */
  datatype Last = Nothing | Root(block: Phrase) | OpenDirective

  /** The root needs no name. */
  ghost predicate RootFits(ts: seq<Token>, p: Phrase) {
    p.Block? && HeaderFits(ts, p.at, p.open, "{") && !IsDirective(ts, p.at) && BlockFits(ts, p) && p.end == |ts|
  }

  /** The rest of a source, from a position on; `at` is where its last part starts. */
  ghost predicate SourceFits(ts: seq<Token>, lo: nat, front: seq<Phrase>, last: Last, at: nat) {
    && at <= |ts|
    && (forall p | p in front :: p.Empty? || p.Directive?) && BodyFits(ts, front, lo, at)
    && match last
       case Nothing => at == |ts|
       case Root(block) => block.at == at && RootFits(ts, block)
       case OpenDirective => Unfinished(ts, at)
  }

  function LastNotes(ts: seq<Token>, last: Last, at: nat): seq<Unsupported> {
    match last
    case Nothing => []
    case Root(block) => Notes(ts, block)
    case OpenDirective => if IsDirective(ts, at) then DirectiveNotes(ts, at) else []
  }

  function SourceNotes(ts: seq<Token>, front: seq<Phrase>, last: Last, at: nat): seq<Unsupported> {
    BodyNotes(ts, front) + LastNotes(ts, last, at)
  }

  /** The issues that are about the syntax; the others are about names, labels and phandles. */
  predicate AboutSyntax(i: Issue) {
    || i.ExtraTopLevel? || i.ExpectedNode? || i.UnterminatedNode? || i.UnterminatedBlock?
    || i.UnnamedNode? || i.UnnamedProperty? || i.UnterminatedMember? || i.Unbalanced? || i.UnterminatedValue?
  }

  predicate NoSyntax(issues: seq<Issue>) {
    forall i | i in issues :: !AboutSyntax(i)
  }

  predicate Clean(st: PState) {
    NoSyntax(st.issues)
  }

  // ----- what a header names -----

  /** The words left so far, by position. */
  ghost predicate IsStack(ts: seq<Token>, lo: nat, hi: nat, prefix: seq<string>, ks: seq<nat>)
    requires lo <= hi <= |ts|
  {
    && |ks| == |prefix|
    && (forall i | 0 <= i < |ks| ::
          && lo <= ks[i] < hi && ts[ks[i]].value == prefix[i] && Stays(ts, ks[i], hi)
          && Stacked(ts, ks[i], hi) == |ks| - i)
    && (forall k: nat | lo <= k < hi && Stays(ts, k, hi) :: k in ks)
  }

  lemma StaysBefore(ts: seq<Token>, k: nat, hi: nat)
    requires k < hi < |ts| && Stays(ts, k, hi + 1)
    ensures Stays(ts, k, hi)
  {
  }

  lemma PushWord(ts: seq<Token>, lo: nat, hi: nat, prefix: seq<string>, ks: seq<nat>)
    requires lo <= hi < |ts| && ts[hi].value != ":" && IsStack(ts, lo, hi, prefix, ks)
    ensures IsStack(ts, lo, hi + 1, prefix + [ts[hi].value], ks + [hi])
  {
    var more := ks + [hi];
    forall i | 0 <= i < |more|
      ensures Stays(ts, more[i], hi + 1) && Stacked(ts, more[i], hi + 1) == |more| - i
    {
      if i < |ks| {
        assert Stacked(ts, ks[i], hi + 1) == Stacked(ts, ks[i], hi) + 1;
      }
    }
    forall k: nat | lo <= k < hi + 1 && Stays(ts, k, hi + 1) ensures k in more {
      if k < hi {
        StaysBefore(ts, k, hi);
        assert k in ks;
      }
    }
  }

  lemma OneColon(ts: seq<Token>, k: nat, hi: nat)
    requires k <= hi < |ts| && ts[hi].value == ":"
    ensures Stacked(ts, k, hi + 1) == Stacked(ts, k, hi) - 1
  {
  }

  lemma PopWord(ts: seq<Token>, lo: nat, hi: nat, prefix: seq<string>, ks: seq<nat>)
    requires lo <= hi < |ts| && ts[hi].value == ":" && IsStack(ts, lo, hi, prefix, ks)
    ensures
      IsStack(ts, lo, hi + 1, if prefix == [] then [] else prefix[..|prefix| - 1], if ks == [] then [] else ks[..|ks| - 1])
  {
    hide Stacked;
    var less := if ks == [] then [] else ks[..|ks| - 1];
    forall i | 0 <= i < |less|
      ensures Stays(ts, less[i], hi + 1) && Stacked(ts, less[i], hi + 1) == |less| - i
    {
      OneColon(ts, ks[i], hi);
      assert Stays(ts, ks[i], hi);
    }
    hide IsStack;
    forall k: nat | lo <= k < hi + 1 && Stays(ts, k, hi + 1) ensures k in less {
      LeftByColon(ts, lo, hi, prefix, ks, k);
    }
    StackLength(ts, lo, hi, prefix, ks);
    ShorterStack(ts, lo, hi, prefix, ks, less);
  }

  lemma LeftByColon(ts: seq<Token>, lo: nat, hi: nat, prefix: seq<string>, ks: seq<nat>, k: nat)
    requires lo <= k <= hi < |ts| && ts[hi].value == ":" && IsStack(ts, lo, hi, prefix, ks) && Stays(ts, k, hi + 1)
    ensures ks != [] && k in ks[..|ks| - 1]
  {
    hide Stacked;
    StaysBefore(ts, k, hi);
    OneColon(ts, k, hi);
    assert Stacked(ts, k, hi + 1) > 0;
    var i :| 0 <= i < |ks| && ks[i] == k;
    assert ks[..|ks| - 1][i] == k;
  }

  lemma ShorterStack(ts: seq<Token>, lo: nat, hi: nat, prefix: seq<string>, ks: seq<nat>, less: seq<nat>)
    requires lo <= hi < |ts| && IsStack(ts, lo, hi, prefix, ks) && less == if ks == [] then [] else ks[..|ks| - 1]
    requires forall i | 0 <= i < |less| :: Stays(ts, less[i], hi + 1) && Stacked(ts, less[i], hi + 1) == |less| - i
    requires forall k: nat | lo <= k < hi + 1 && Stays(ts, k, hi + 1) :: k in less
    ensures IsStack(ts, lo, hi + 1, if prefix == [] then [] else prefix[..|prefix| - 1], less)
  {
    hide Stacked, Stays;
  }

  lemma {:induction false} HeaderStack(ts: seq<Token>, lo: nat, h: Header, ks: seq<nat>) returns (ms: seq<nat>)
    requires lo <= h.pos <= |ts| && Words(ts, lo, h.pos) && IsStack(ts, lo, h.pos, h.prefix, ks)
    ensures
      var r := ReadHeader(ts, h);
      Words(ts, lo, r.pos) && IsStack(ts, lo, r.pos, r.prefix, ms)
    decreases |ts| - h.pos
  {
    hide IsStack;
    ms := ks;
    if h.pos < |ts| && ts[h.pos].value !in {"{", "=", ";"} {
      if ts[h.pos].value == ":" {
        PopWord(ts, lo, h.pos, h.prefix, ks);
        StackLength(ts, lo, h.pos, h.prefix, ks);
        var labels :=
          if h.prefix == [] || h.prefix[|h.prefix| - 1] == "" then h.labels else h.labels + [h.prefix[|h.prefix| - 1]];
        var less := if h.prefix == [] then [] else h.prefix[..|h.prefix| - 1];
        ms := HeaderStack(ts, lo, Header(h.pos + 1, less, labels), if ks == [] then [] else ks[..|ks| - 1]);
      } else {
        PushWord(ts, lo, h.pos, h.prefix, ks);
        ms := HeaderStack(ts, lo, Header(h.pos + 1, h.prefix + [ts[h.pos].value], h.labels), ks + [h.pos]);
      }
    }
  }

  lemma StackLength(ts: seq<Token>, lo: nat, hi: nat, prefix: seq<string>, ks: seq<nat>)
    requires lo <= hi <= |ts| && IsStack(ts, lo, hi, prefix, ks)
    ensures |ks| == |prefix|
  {
  }

  lemma StackTop(ts: seq<Token>, lo: nat, hi: nat, prefix: seq<string>, ks: seq<nat>)
    requires lo <= hi <= |ts| && IsStack(ts, lo, hi, prefix, ks)
    ensures Named(ts, lo, hi) <==> LastOr(prefix, "") != ""
  {
    if prefix != [] {
      var k := ks[|ks| - 1];
      assert IsLastWord(ts, k, hi);
    }
    if Named(ts, lo, hi) {
      var k: nat :| lo <= k < hi && IsLastWord(ts, k, hi) && ts[k].value != "";
      assert k in ks;
      var i :| 0 <= i < |ks| && ks[i] == k;
      assert i == |ks| - 1;
    }
  }

  /** A header stops at the first `{`, `=` or `;`, and names its last word that is no label. */
  lemma HeaderExactly(ts: seq<Token>, lo: nat)
    requires lo <= |ts|
    ensures
      var r := ReadHeader(ts, Header(lo, [], []));
      Words(ts, lo, r.pos) && (Named(ts, lo, r.pos) <==> LastOr(r.prefix, "") != "")
  {
    assert IsStack(ts, lo, lo, [], []);
    var ms := HeaderStack(ts, lo, Header(lo, [], []), []);
    hide IsStack, ReadHeader;
    var r := ReadHeader(ts, Header(lo, [], []));
    StackTop(ts, lo, r.pos, r.prefix, ms);
  }

  lemma HeaderStops(ts: seq<Token>, lo: nat, stop: nat, end: string)
    requires HeaderFits(ts, lo, stop, end) && end in {"{", "=", ";"}
    ensures ReadHeader(ts, Header(lo, [], [])).pos == stop
  {
    hide ReadHeader;
    HeaderExactly(ts, lo);
  }

  // ----- where a directive ends -----

  /** How many brackets are open while skipping: the largest nesting of a stretch that ends here. */
  ghost predicate IsLevel(ts: seq<Token>, lo: nat, hi: nat, d: nat)
    requires lo <= hi <= |ts|
  {
    && (forall j: nat | lo <= j <= hi :: Nesting(ts, j, hi) <= d)
    && (exists j: nat :: lo <= j <= hi && Nesting(ts, j, hi) == d)
  }

  lemma LevelStep(ts: seq<Token>, lo: nat, hi: nat, d: nat)
    requires lo <= hi < |ts| && IsLevel(ts, lo, hi, d)
    ensures
      var v := ts[hi].value;
      IsLevel(ts, lo, hi + 1, if OpensText(v) then d + 1 else if ClosesText(v) then (if d > 0 then d - 1 else 0) else d)
  {
    var v := ts[hi].value;
    var more := if OpensText(v) then 1 else if ClosesText(v) then -1 else 0;
    forall j: nat | lo <= j <= hi ensures Nesting(ts, j, hi + 1) == Nesting(ts, j, hi) + more {
    }
    assert Nesting(ts, hi + 1, hi + 1) == 0;
    hide Nesting, OpensText, ClosesText;
    var j: nat :| lo <= j <= hi && Nesting(ts, j, hi) == d;
    assert Nesting(ts, j, hi + 1) == d + more;
    var e := if OpensText(v) then d + 1 else if ClosesText(v) then (if d > 0 then d - 1 else 0) else d;
    var top := hi + 1;
    forall k: nat | lo <= k <= top ensures Nesting(ts, k, top) <= e {
      if k <= hi {
        assert Nesting(ts, k, hi) <= d;
      }
    }
    assert Nesting(ts, if more == -1 && d == 0 then top else j, top) == e;
  }

  lemma LevelZero(ts: seq<Token>, lo: nat, hi: nat, d: nat)
    requires lo <= hi <= |ts| && IsLevel(ts, lo, hi, d)
    ensures d == 0 <==> forall j: nat | lo <= j <= hi :: Nesting(ts, j, hi) <= 0
  {
    hide Nesting;
    var j: nat :| lo <= j <= hi && Nesting(ts, j, hi) == d;
    assert d > 0 ==> !(Nesting(ts, j, hi) <= 0);
  }

  /** Skipping goes behind the first semicolon with no bracket open, or to the end. */
  lemma {:induction false} SkipFrom(ts: seq<Token>, lo: nat, i: nat, terminators: set<string>, d: nat)
    requires lo <= i <= |ts| && IsLevel(ts, lo, i, d) && ";" in terminators && terminators <= {";", "{"}
    ensures
      var r := SkipUntil(ts, i, terminators, d);
      && (forall k: nat | i <= k < r - 1 :: !Stops(ts, lo, k))
      && (r < |ts| ==> i < r && Stops(ts, lo, r - 1))
    decreases |ts| - i
  {
    if i < |ts| {
      LevelStep(ts, lo, i, d);
      LevelZero(ts, lo, i, d);
      hide IsLevel, Nesting;
      var v := ts[i].value;
      var next := if OpensText(v) then d + 1 else if ClosesText(v) && d > 0 then d - 1 else d;
      if !(v == ";" && d == 0) {
        SkipFrom(ts, lo, i + 1, terminators, next);
      }
    }
  }

  lemma SkipExactly(ts: seq<Token>, lo: nat, terminators: set<string>)
    requires lo <= |ts| && ";" in terminators && terminators <= {";", "{"}
    ensures
      var r := SkipUntil(ts, lo, terminators, 0);
      && (forall k: nat | lo <= k < r - 1 :: !Stops(ts, lo, k))
      && (r < |ts| ==> lo < r && Stops(ts, lo, r - 1))
  {
    assert Nesting(ts, lo, lo) == 0;
    SkipFrom(ts, lo, lo, terminators, 0);
  }

  lemma {:induction false} NestedFrom(ts: seq<Token>, lo: nat, i: nat)
    requires lo < i <= |ts| && forall k: nat | lo < k <= i :: Excess(ts, lo, k, "{", "}") > 0
    ensures
      var r := SkipNested(ts, i, "{", "}", Excess(ts, lo, i, "{", "}"));
      Braced(ts, lo, r) || (r == |ts| && Unbraced(ts, lo))
    decreases |ts| - i
  {
    if i < |ts| {
      var d := Excess(ts, lo, i, "{", "}");
      assert Excess(ts, lo, i + 1, "{", "}") ==
        d + if ts[i].value == "{" then 1 else if ts[i].value == "}" then -1 else 0;
      if !(ts[i].value == "}" && d == 1) {
        NestedFrom(ts, lo, i + 1);
      }
    }
  }

  lemma BracesExactly(ts: seq<Token>, lo: nat)
    requires Is(ts, lo, "{")
    ensures
      var r := SkipBalanced(ts, lo, "{", "}");
      Braced(ts, lo, r) || (r == |ts| && Unbraced(ts, lo))
  {
    assert Excess(ts, lo, lo + 1, "{", "}") == 1;
    NestedFrom(ts, lo, lo + 1);
  }

  lemma HeadExactly(ts: seq<Token>, at: nat)
    requires IsDirective(ts, at)
    ensures DirectiveName(ts, at) == (DirectiveWord(ts, at), HeadEnd(ts, at))
  {
  }

  /** A directive statement is consumed to its end, or it is unfinished and takes everything. */
  lemma DirectiveExactly(ts: seq<Token>, st: PState) returns (p: Option<Phrase>)
    requires IsDirective(ts, st.pos)
    ensures ConsumeDirective(ts, st).unsupported == st.unsupported + DirectiveNotes(ts, st.pos)
    ensures p.Some? ==>
      p.value.Directive? && p.value.at == st.pos && DirectiveFits(ts, p.value) && p.value.end == ConsumeDirective(ts, st).pos
    ensures p.None? ==> Unfinished(ts, st.pos) && ConsumeDirective(ts, st).pos == |ts|
  {
    HeadExactly(ts, st.pos);
    var lo := HeadEnd(ts, st.pos);
    SkipExactly(ts, lo, {";"});
    SkipExactly(ts, lo, {";", "{"});
    assert st.unsupported + [] == st.unsupported;
    hide DirectiveName, SkipUntil, SkipBalanced, HeadEnd, DirectiveWord, Stops, Braced, Unbraced;
    var k := SkipUntil(ts, lo, if Understood(ts, st.pos) then {";"} else {";", "{"}, 0);
    if lo < k && Stops(ts, lo, k - 1) {
      assert FirstStop(ts, lo, k - 1);
      if !Understood(ts, st.pos) && Is(ts, k, "{") {
        BracesExactly(ts, k);
        var end := SkipBalanced(ts, k, "{", "}");
        p := if Braced(ts, k, end) then Some(Directive(st.pos, k - 1, end)) else None;
      } else {
        NothingBraced(ts, k);
        p := Some(Directive(st.pos, k - 1, k));
      }
    } else {
      p := None;
    }
  }

  lemma NothingBraced(ts: seq<Token>, k: nat)
    requires k <= |ts|
    ensures !Is(ts, k, "{") ==> SkipBalanced(ts, k, "{", "}") == k
  {
  }

  lemma OneStop(ts: seq<Token>, lo: nat, j: nat, k: nat)
    requires FirstStop(ts, lo, j) && FirstStop(ts, lo, k)
    ensures j == k
  {
    hide Stops;
  }

  lemma OneBraced(ts: seq<Token>, lo: nat, j: nat, k: nat)
    requires Braced(ts, lo, j) && Braced(ts, lo, k)
    ensures j == k
  {
    hide Excess;
  }

  lemma NotBoth(ts: seq<Token>, lo: nat, j: nat)
    requires Braced(ts, lo, j)
    ensures !Unbraced(ts, lo)
  {
    hide Excess;
  }

  /** The end of a directive is determined. */
  lemma DirectiveEnds(ts: seq<Token>, st: PState, p: Phrase)
    requires p.Directive? && p.at == st.pos && DirectiveFits(ts, p)
    ensures ConsumeDirective(ts, st).pos == p.end
  {
    hide ConsumeDirective, Stops, Braced, Unbraced, HeadEnd;
    var q := DirectiveExactly(ts, st);
    var lo := HeadEnd(ts, st.pos);
    if q.Some? {
      OneStop(ts, lo, p.semi, q.value.semi);
      if !Understood(ts, p.at) && Is(ts, p.semi + 1, "{") {
        OneBraced(ts, p.semi + 1, p.end, q.value.end);
      }
    } else {
      assert Stops(ts, lo, p.semi);
      var semi: nat :| FirstStop(ts, lo, semi) && Is(ts, semi + 1, "{") && Unbraced(ts, semi + 1);
      OneStop(ts, lo, p.semi, semi);
      NotBoth(ts, semi + 1, p.end);
    }
  }

  lemma UnfinishedEnds(ts: seq<Token>, st: PState)
    requires Unfinished(ts, st.pos)
    ensures ConsumeDirective(ts, st).pos == |ts|
  {
    hide ConsumeDirective, Stops, Braced, Unbraced, HeadEnd;
    var q := DirectiveExactly(ts, st);
    var lo := HeadEnd(ts, st.pos);
    if q.Some? {
      assert Stops(ts, lo, q.value.semi);
      var semi: nat :| FirstStop(ts, lo, semi) && Is(ts, semi + 1, "{") && Unbraced(ts, semi + 1);
      OneStop(ts, lo, q.value.semi, semi);
      NotBoth(ts, semi + 1, q.value.end);
    }
  }
}
