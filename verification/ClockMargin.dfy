/**
 The detection threshold by counting: the least recorded read span that at least 95 percent of the
 recorded spans do not exceed, weighed against the clock resolution and one millisecond.
 */
module ClockMargin {
  import opened Wrappers
  import opened JsonValues
  import opened ClockRecords
  import opened ClockAnalyzer

  // ----- a typical span -----

  /** The positions of values up to `x`. */
  ghost function UpTo(spans: seq<int>, x: int): set<int> {
    set k | 0 <= k < |spans| && spans[k] <= x
  }

  /** At least 95 percent of the values are up to `x`. */
  ghost predicate Covers(spans: seq<int>, x: int) {
    100 * |UpTo(spans, x)| >= 95 * |spans|
  }

  /** The least of the values that covers them, or 0 when there is none. */
  ghost predicate Typical(spans: seq<int>, x: int) {
    if spans == [] then x == 0
    else x in spans && Covers(spans, x) && forall y | y in spans && Covers(spans, y) :: x <= y
  }

  /** The larger of one millisecond and 8 typical spans with 16 resolutions. */
  ghost predicate IsMargin(resolution: int, spans: seq<int>, margin: int) {
    exists x :: Typical(spans, x) &&
      margin == if 8 * x + 16 * resolution > 1_000_000 then 8 * x + 16 * resolution else 1_000_000
  }

  function Count(spans: seq<int>, x: int): (n: nat)
    ensures n <= |spans|
  {
    if spans == [] then 0 else (if spans[0] <= x then 1 else 0) + Count(spans[1..], x)
  }

  lemma {:induction false} CountIsSize(spans: seq<int>, x: int)
    ensures |UpTo(spans, x)| == Count(spans, x)
  {
    if spans == [] {
      assert UpTo(spans, x) == {};
    } else {
      var n := |spans| - 1;
      CountIsSize(spans[..n], x);
      CountLast(spans, x);
      if spans[n] <= x {
        assert UpTo(spans, x) == UpTo(spans[..n], x) + {n};
      } else {
        assert UpTo(spans, x) == UpTo(spans[..n], x);
      }
    }
  }

  lemma {:induction false} CountLast(spans: seq<int>, x: int)
    requires spans != []
    ensures Count(spans, x) == Count(spans[..|spans| - 1], x) + if spans[|spans| - 1] <= x then 1 else 0
  {
    if |spans| > 1 {
      CountLast(spans[1..], x);
      assert spans[..|spans| - 1][1..] == spans[1..][..|spans| - 2];
    }
  }

  lemma {:induction false} InsertCounts(v: int, s: seq<int>, x: int)
    ensures Count(Insert(v, s), x) == Count(s, x) + if v <= x then 1 else 0
  {
    if s == [] || v <= s[0] {
      assert ([v] + s)[1..] == s;
    } else {
      InsertCounts(v, s[1..], x);
      assert Insert(v, s)[1..] == Insert(v, s[1..]);
    }
  }

  lemma {:induction false} SortingCounts(s: seq<int>, x: int)
    ensures Count(Sorted(s), x) == Count(s, x)
  {
    if s != [] {
      SortingCounts(s[1..], x);
      InsertCounts(s[0], Sorted(s[1..]), x);
    }
  }

  /** In ascending order the values up to `x` come first. */
  lemma {:induction false} AscendingCounts(s: seq<int>, x: int, k: nat)
    requires Ascending(s) && k < |s|
    ensures s[k] <= x <==> k < Count(s, x)
  {
    if |s| == 1 {
    } else if k == 0 {
      AscendingCounts(s[1..], x, 0);
    } else {
      AscendingCounts(s[1..], x, k - 1);
      AscendingCounts(s[1..], x, 0);
    }
  }

  lemma PercentileIsTypical(spans: seq<int>)
    ensures Typical(spans, if Percentile(spans).Some? then Percentile(spans).value else 0)
  {
    if spans != [] {
      var sorted, k := Sorted(spans), PercentileIndex(|spans|);
      var p := sorted[k];
      assert p in multiset(sorted);
      hide Sorted, Ascending, PercentileIndex;
      forall x ensures Covers(spans, x) <==> p <= x {
        CountIsSize(spans, x);
        SortingCounts(spans, x);
        AscendingCounts(sorted, x, k);
      }
    }
  }

  lemma OneTypical(spans: seq<int>, x: int, y: int)
    requires Typical(spans, x) && Typical(spans, y)
    ensures x == y
  {
  }

  lemma MarginExactly(resolution: int, spans: seq<int>, margin: int)
    ensures IsMargin(resolution, spans, margin) <==> margin == MarginOf(Some(resolution), spans)
  {
    hide Percentile, Typical;
    var p := if Percentile(spans).Some? then Percentile(spans).value else 0;
    PercentileIsTypical(spans);
    forall x | Typical(spans, x) ensures x == p {
      OneTypical(spans, x, p);
    }
  }

  // ----- over records -----

  /** The record has a span that is an integer and not negative. */
  predicate Recorded(r: Record) {
    r.span.Int? && r.span.n >= 0
  }

  ghost function RecordedAt(ts: seq<Record>): set<int> {
    set k | 0 <= k < |ts| && Recorded(ts[k])
  }

  ghost function RecordedUpTo(ts: seq<Record>, x: int): set<int> {
    set k | 0 <= k < |ts| && Recorded(ts[k]) && ts[k].span.n <= x
  }

  ghost predicate CoversRecords(ts: seq<Record>, x: int) {
    100 * |RecordedUpTo(ts, x)| >= 95 * |RecordedAt(ts)|
  }

  /** The least recorded span with at least 95 percent of the recorded ones up to it, or 0. */
  ghost predicate TypicalRecord(ts: seq<Record>, x: int) {
    if RecordedAt(ts) == {} then x == 0
    else
      && (exists k :: k in RecordedAt(ts) && ts[k].span.n == x)
      && CoversRecords(ts, x)
      && forall k | k in RecordedAt(ts) && CoversRecords(ts, ts[k].span.n) :: x <= ts[k].span.n
  }

  predicate IsResolution(v: JVal, n: int) {
    v == Int(n) && n > 0
  }

  /** The larger of the resolutions that are positive integers. */
  ghost predicate LargerResolution(m: Record, n: int) {
    && (IsResolution(m.monoResolution, n) || IsResolution(m.bootResolution, n))
    && forall k | IsResolution(m.monoResolution, k) || IsResolution(m.bootResolution, k) :: k <= n
  }

  /** What the threshold of a timeline with this metadata is. */
  ghost predicate IsThreshold(m: Record, ts: seq<Record>, t: int) {
    if exists n :: LargerResolution(m, n) then
      exists n, x :: LargerResolution(m, n) && TypicalRecord(ts, x) && t == if 8 * x + 16 * n > 1_000_000 then 8 * x + 16 * n else 1_000_000
    else t == 1_000_000
  }

  lemma RecordedGrows(ts: seq<Record>, k: nat, x: int)
    requires k < |ts|
    ensures RecordedAt(ts[..k + 1]) == RecordedAt(ts[..k]) + if Recorded(ts[k]) then {k} else {}
    ensures RecordedUpTo(ts[..k + 1], x) ==
            RecordedUpTo(ts[..k], x) + if Recorded(ts[k]) && ts[k].span.n <= x then {k} else {}
    ensures k !in RecordedAt(ts[..k]) && k !in RecordedUpTo(ts[..k], x)
  {
    assert ts[..k + 1] == ts[..k] + [ts[k]];
  }

  lemma UpToGrows(s: seq<int>, v: int, x: int)
    ensures UpTo(s + [v], x) == UpTo(s, x) + if v <= x then {|s|} else {}
    ensures |s| !in UpTo(s, x)
  {
  }

  lemma {:induction false} SpansCounted(ts: seq<Record>, k: nat, x: int)
    requires k <= |ts|
    ensures |RecordedAt(ts[..k])| == |Spans(ts, k)| && |RecordedUpTo(ts[..k], x)| == |UpTo(Spans(ts, k), x)|
  {
    if k == 0 {
      assert RecordedAt(ts[..k]) == {} && RecordedUpTo(ts[..k], x) == {} && UpTo(Spans(ts, k), x) == {};
    } else {
      SpansCounted(ts, k - 1, x);
      RecordedGrows(ts, k - 1, x);
      SpansGrow(ts, k - 1, x);
      hide RecordedAt, RecordedUpTo, UpTo, Spans, Recorded;
    }
  }

  lemma SpansGrow(ts: seq<Record>, k: nat, x: int)
    requires k < |ts|
    ensures |Spans(ts, k + 1)| == |Spans(ts, k)| + if Recorded(ts[k]) then 1 else 0
    ensures |UpTo(Spans(ts, k + 1), x)| ==
            |UpTo(Spans(ts, k), x)| + if Recorded(ts[k]) && ts[k].span.n <= x then 1 else 0
  {
    if Recorded(ts[k]) {
      UpToGrows(Spans(ts, k), ts[k].span.n, x);
    } else {
      assert Spans(ts, k) + [] == Spans(ts, k);
    }
  }

  lemma {:induction false} SpansAreRecorded(ts: seq<Record>, k: nat, x: int)
    requires k <= |ts|
    ensures x in Spans(ts, k) <==> exists i :: 0 <= i < k && Recorded(ts[i]) && ts[i].span.n == x
  {
    if k > 0 {
      SpansAreRecorded(ts, k - 1, x);
    }
  }

  lemma TypicalExactly(ts: seq<Record>, x: int)
    ensures TypicalRecord(ts, x) <==> Typical(Spans(ts, |ts|), x)
  {
    hide Spans;
    var spans := Spans(ts, |ts|);
    assert ts[..|ts|] == ts;
    SpansCounted(ts, |ts|, 0);
    forall y ensures CoversRecords(ts, y) <==> Covers(spans, y) {
      SpansCounted(ts, |ts|, y);
    }
    forall y ensures y in spans <==> exists k :: k in RecordedAt(ts) && ts[k].span.n == y {
      SpansAreRecorded(ts, |ts|, y);
      if k :| 0 <= k < |ts| && Recorded(ts[k]) && ts[k].span.n == y {
        assert k in RecordedAt(ts);
      }
    }
    hide Covers, CoversRecords;
    assert RecordedAt(ts) == {} <==> spans == [];
    forall k | k in RecordedAt(ts) ensures ts[k].span.n in spans {
    }
  }

  lemma ResolutionExactly(m: Record, n: int)
    ensures LargerResolution(m, n) <==> MaxResolution(m) == Some(n)
  {
    assert m.monoResolution.Int? ==> (GoodResolution(m.monoResolution) <==> IsResolution(m.monoResolution, m.monoResolution.n));
    assert m.bootResolution.Int? ==> (GoodResolution(m.bootResolution) <==> IsResolution(m.bootResolution, m.bootResolution.n));
  }

  /** The threshold of any records is the one that counting gives, and no other. */
  lemma ThresholdExactly(m: Record, ts: seq<Record>, t: int)
    ensures IsThreshold(m, ts, t) <==> t == Threshold(m, ts)
  {
    hide Spans, MaxResolution, LargerResolution, TypicalRecord, Typical, MarginOf;
    forall n ensures LargerResolution(m, n) <==> MaxResolution(m) == Some(n) {
      ResolutionExactly(m, n);
    }
    forall x ensures TypicalRecord(ts, x) <==> Typical(Spans(ts, |ts|), x) {
      TypicalExactly(ts, x);
    }
    if MaxResolution(m).Some? {
      var n := MaxResolution(m).value;
      assert LargerResolution(m, n);
      MarginExactly(n, Spans(ts, |ts|), t);
    } else {
      NoResolution(Spans(ts, |ts|));
    }
  }

  lemma NoResolution(spans: seq<int>)
    ensures MarginOf(None, spans) == 1_000_000
  {
  }

  /** Every report on records has that threshold. */
  lemma ReportedThreshold(rs: seq<Record>, parse: seq<string>)
    requires rs != [] && AnalyzeResult(rs, parse).Ok?
    ensures IsThreshold(MetadataOf(rs), TimelineOf(rs), AnalyzeResult(rs, parse).value.threshold)
  {
    hide ClockErrors, EarlyErrors, LateErrors, Warnings, StatusOf, IsThreshold, Threshold, Gaps, MaxChange, Offsets, CountReadable,
      PointsOf, TimelineOf, OfKind, MetadataOf;
    ThresholdExactly(MetadataOf(rs), TimelineOf(rs), AnalyzeResult(rs, parse).value.threshold);
  }
}
