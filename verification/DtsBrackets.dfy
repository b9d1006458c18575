/**
 Brackets in values and in skipped statements, by counting: where a value ends, which brackets are
 reported as unbalanced, and what opens or closes a nesting while the parser recovers.
 */
module DtsBrackets {
  import opened Wrappers
  import opened DtsScanner
  import opened DtsTree
  import opened DtsGrammar

  // ----- open brackets -----

  /** Openings less closings of one kind in a stretch of tokens. */
  function Excess(ts: seq<Token>, lo: nat, hi: nat, opening: string, closing: string): int
    requires lo <= hi <= |ts|
    decreases hi
  {
    if lo == hi then 0
    else
      Excess(ts, lo, hi - 1, opening, closing)
        + (if ts[hi - 1].value == opening then 1 else if ts[hi - 1].value == closing then -1 else 0)
  }

  /** No bracket of the kind is open: no stretch that ends here has more openings than closings. */
  ghost predicate NoneOpen(ts: seq<Token>, lo: nat, hi: nat, opening: string, closing: string)
    requires lo <= hi <= |ts|
  {
    forall j: nat | lo <= j <= hi :: Excess(ts, j, hi, opening, closing) <= 0
  }

  /** A semicolon outside every bracket. */
  ghost predicate EndsValue(ts: seq<Token>, lo: nat, at: nat)
    requires lo <= at < |ts|
  {
    && ts[at].value == ";"
    && NoneOpen(ts, lo, at, "<", ">") && NoneOpen(ts, lo, at, "[", "]") && NoneOpen(ts, lo, at, "{", "}")
  }

  /** A closing bracket with nothing of its kind open. */
  ghost predicate ClosesNothing(ts: seq<Token>, lo: nat, at: nat)
    requires lo <= at < |ts|
  {
    || (ts[at].value == ">" && NoneOpen(ts, lo, at, "<", ">"))
    || (ts[at].value == "]" && NoneOpen(ts, lo, at, "[", "]"))
    || (ts[at].value == "}" && NoneOpen(ts, lo, at, "{", "}"))
  }

  /** How many brackets of a kind are open: the largest excess of a stretch that ends here. */
  ghost predicate IsDepth(ts: seq<Token>, lo: nat, hi: nat, opening: string, closing: string, d: nat)
    requires lo <= hi <= |ts|
  {
    && (forall j: nat | lo <= j <= hi :: Excess(ts, j, hi, opening, closing) <= d)
    && (exists j: nat :: lo <= j <= hi && Excess(ts, j, hi, opening, closing) == d)
  }

  ghost predicate AreDepths(ts: seq<Token>, lo: nat, hi: nat, d: Depths)
    requires lo <= hi <= |ts|
  {
    && IsDepth(ts, lo, hi, "<", ">", d.angle) && IsDepth(ts, lo, hi, "[", "]", d.square)
    && IsDepth(ts, lo, hi, "{", "}", d.curly)
  }

  lemma DepthStep(ts: seq<Token>, lo: nat, hi: nat, opening: string, closing: string, d: nat)
    requires lo <= hi < |ts| && opening != closing && IsDepth(ts, lo, hi, opening, closing, d)
    ensures
      var v := ts[hi].value;
      IsDepth(ts, lo, hi + 1, opening, closing,
              if v == opening then d + 1 else if v == closing then (if d > 0 then d - 1 else 0) else d)
  {
    var v := ts[hi].value;
    var more := if v == opening then 1 else if v == closing then -1 else 0;
    forall j: nat | lo <= j <= hi
      ensures Excess(ts, j, hi + 1, opening, closing) == Excess(ts, j, hi, opening, closing) + more
    {
    }
    assert Excess(ts, hi + 1, hi + 1, opening, closing) == 0;
    hide Excess;
    var j: nat :| lo <= j <= hi && Excess(ts, j, hi, opening, closing) == d;
    assert Excess(ts, j, hi + 1, opening, closing) == d + more;
    var e := if v == opening then d + 1 else if v == closing then (if d > 0 then d - 1 else 0) else d;
    var top := hi + 1;
    forall k: nat | lo <= k <= top ensures Excess(ts, k, top, opening, closing) <= e {
      if k <= hi {
        assert Excess(ts, k, hi, opening, closing) <= d;
      }
    }
    if v == closing && d == 0 {
      assert Excess(ts, hi + 1, hi + 1, opening, closing) == e;
    } else {
      assert Excess(ts, j, hi + 1, opening, closing) == e;
    }
  }

  lemma NoDepth(ts: seq<Token>, lo: nat, hi: nat, opening: string, closing: string, d: nat)
    requires lo <= hi <= |ts| && IsDepth(ts, lo, hi, opening, closing, d)
    ensures d == 0 <==> NoneOpen(ts, lo, hi, opening, closing)
  {
    hide Excess;
  }

  lemma NestStep(ts: seq<Token>, lo: nat, hi: nat, d: Depths)
    requires lo <= hi < |ts| && AreDepths(ts, lo, hi, d)
    ensures AreDepths(ts, lo, hi + 1, Nest(d, ts[hi].value).0)
    ensures Nest(d, ts[hi].value).1 <==> ClosesNothing(ts, lo, hi)
  {
    DepthStep(ts, lo, hi, "<", ">", d.angle);
    DepthStep(ts, lo, hi, "[", "]", d.square);
    DepthStep(ts, lo, hi, "{", "}", d.curly);
    NoDepth(ts, lo, hi, "<", ">", d.angle);
    NoDepth(ts, lo, hi, "[", "]", d.square);
    NoDepth(ts, lo, hi, "{", "}", d.curly);
    hide IsDepth, NoneOpen;
  }

  lemma EndStep(ts: seq<Token>, lo: nat, hi: nat, d: Depths)
    requires lo <= hi < |ts| && AreDepths(ts, lo, hi, d)
    ensures EndsValue(ts, lo, hi) <==> ts[hi].value == ";" && d.AllZero()
  {
    NoDepth(ts, lo, hi, "<", ">", d.angle);
    NoDepth(ts, lo, hi, "[", "]", d.square);
    NoDepth(ts, lo, hi, "{", "}", d.curly);
    hide IsDepth, NoneOpen;
  }

  // ----- values -----

  /** The issues of a value between two positions: one for every bracket that closes nothing. */
  ghost predicate IssuesBetween(ts: seq<Token>, lo: nat, at: nat, end: nat, issues: seq<Issue>)
    requires lo <= at <= end <= |ts|
  {
    && (forall v, l :: Unbalanced(v, l) in issues <==>
          exists k :: at <= k < end && ClosesNothing(ts, lo, k) && ts[k].value == v && ts[k].line == l)
    && (UnterminatedValue in issues <==> end == |ts|)
  }

  ghost predicate IsValue(ts: seq<Token>, lo: nat, at: nat, r: ValueTokens)
    requires lo <= at <= |ts|
  {
    var end := at + |r.values|;
    && end <= |ts| && r.values == ts[at..end]
    && (forall k | at <= k < end :: !EndsValue(ts, lo, k))
    && (end < |ts| ==> EndsValue(ts, lo, end))
    && r.pos == (if end < |ts| then end + 1 else end)
    && IssuesBetween(ts, lo, at, end, r.issues)
  }

  lemma {:induction false} ValueFrom(ts: seq<Token>, lo: nat, at: nat, d: Depths)
    requires lo <= at <= |ts| && AreDepths(ts, lo, at, d)
    ensures IsValue(ts, lo, at, TakeValue(ts, at, d))
    decreases |ts| - at
  {
    hide AreDepths, EndsValue, ClosesNothing, Nest, Depths.AllZero;
    if at == |ts| {
      assert ts[at..at] == [];
    } else {
      EndStep(ts, lo, at, d);
      NestStep(ts, lo, at, d);
      if ts[at].value == ";" && d.AllZero() {
        assert ts[at..at] == [];
      } else {
        var next := Nest(d, ts[at].value).0;
        ValueFrom(ts, lo, at + 1, next);
        ValueMore(ts, lo, at, TakeValue(ts, at + 1, next), Nest(d, ts[at].value).1);
      }
    }
  }

  lemma ValueMore(ts: seq<Token>, lo: nat, at: nat, rest: ValueTokens, unbalanced: bool)
    requires lo <= at < |ts| && IsValue(ts, lo, at + 1, rest) && !EndsValue(ts, lo, at)
    requires unbalanced <==> ClosesNothing(ts, lo, at)
    ensures
      var one := if unbalanced then [Unbalanced(ts[at].value, ts[at].line)] else [];
      IsValue(ts, lo, at, ValueTokens([ts[at]] + rest.values, rest.pos, one + rest.issues))
  {
    hide EndsValue, ClosesNothing;
    var one := if unbalanced then [Unbalanced(ts[at].value, ts[at].line)] else [];
    var end := at + 1 + |rest.values|;
    assert [ts[at]] + rest.values == ts[at..end];
    var issues := one + rest.issues;
    forall v, l
      ensures Unbalanced(v, l) in issues <==>
        exists k :: at <= k < end && ClosesNothing(ts, lo, k) && ts[k].value == v && ts[k].line == l
    {
      assert Unbalanced(v, l) in issues <==> Unbalanced(v, l) in one || Unbalanced(v, l) in rest.issues;
    }
    assert UnterminatedValue in issues <==> UnterminatedValue in rest.issues;
  }

  /**
   A value ends at the first semicolon outside every bracket; every closing bracket with nothing of its
   kind open is reported, and so is the end of the tokens when there is no such semicolon.
   */
  lemma ValueExactly(ts: seq<Token>, at: nat)
    requires at <= |ts|
    ensures IsValue(ts, at, at, TakeValue(ts, at, Depths(0, 0, 0)))
  {
    NoneYet(ts, at, "<", ">");
    NoneYet(ts, at, "[", "]");
    NoneYet(ts, at, "{", "}");
    ValueFrom(ts, at, at, Depths(0, 0, 0));
  }

  lemma NoneYet(ts: seq<Token>, at: nat, opening: string, closing: string)
    requires at <= |ts|
    ensures IsDepth(ts, at, at, opening, closing, 0)
  {
    assert Excess(ts, at, at, opening, closing) == 0;
  }

  // ----- recovery -----

  /** The text is a stretch of the three brackets in a row, the empty one included. */
  ghost predicate IsStretch(v: string, row: string) {
    exists i, j :: 0 <= i <= j <= |row| && v == row[i..j]
  }

  /** While the parser skips, a token nests exactly when it is a stretch of the opening or closing brackets. */
  lemma NestingTexts(v: string)
    ensures OpensText(v) <==> IsStretch(v, "<[{")
    ensures ClosesText(v) <==> IsStretch(v, ">]}")
  {
    var o, c := "<[{", ">]}";
    Stretches(v, o);
    Stretches(v, c);
    assert o[0..0] == "" && o[0..1] == "<" && o[1..2] == "[" && o[2..3] == "{";
    assert o[0..2] == "<[" && o[1..3] == "[{" && o[0..3] == "<[{";
    assert c[0..0] == "" && c[0..1] == ">" && c[1..2] == "]" && c[2..3] == "}";
    assert c[0..2] == ">]" && c[1..3] == "]}" && c[0..3] == ">]}";
  }

  lemma Stretches(v: string, row: string)
    requires |row| == 3
    ensures IsStretch(v, row) <==> v in {row[0..0], row[0..1], row[1..2], row[2..3], row[0..2], row[1..3], row[0..3]}
  {
    assert row[0..0] == row[1..1] == row[2..2] == row[3..3] == [];
    if v == row[0..0] || v == row[0..1] || v == row[1..2] || v == row[2..3] {
      assert IsStretch(v, row);
    }
  }

  // ----- paths -----

  /**
   A name is hung under its parent with one slash between them; slashes at the parent's end are dropped,
   unless the name is a label reference.
   */
  lemma JoinPathExactly(parent: string, name: string, slashes: string)
    requires (parent == "" || parent[|parent| - 1] != '/') && forall c | c in slashes :: c == '/'
    ensures JoinPath("/", name) == "/" + name
    ensures parent + slashes != "/" ==>
      JoinPath(parent + slashes, name) ==
      if name != "" && name[0] == '&' then parent + slashes + "/" + name else parent + "/" + name
  {
    Stripped(parent, slashes);
  }

  lemma {:induction false} Stripped(parent: string, slashes: string)
    requires (parent == "" || parent[|parent| - 1] != '/') && forall c | c in slashes :: c == '/'
    ensures StripSlashes(parent + slashes) == parent
  {
    var s := parent + slashes;
    if slashes == "" {
      assert s == parent;
    } else {
      var fewer := slashes[..|slashes| - 1];
      forall c | c in fewer ensures c == '/' {
        assert c in slashes;
      }
      assert s[..|s| - 1] == parent + fewer;
      assert slashes[|slashes| - 1] in slashes;
      Stripped(parent, fewer);
    }
  }
}
