/**
 The timelines the analyzer accepts, without reference to its passes, and what they cover: the
 sampling gaps add up to the whole interval.
 */
module ClockTimeline {
  import opened Wrappers
  import opened JsonValues
  import opened ClockRecords
  import opened ClockAnalyzer
  import opened ClockVerdict

  // ----- single records -----

  predicate Natural(v: JVal) {
    v.Int? && v.n >= 0
  }

  predicate WellTyped(r: Record) {
    && Natural(r.sequence) && Natural(r.mono) && Natural(r.boot) && Natural(r.span)
    && (IsNone(r.offset) || r.offset.Int?) && (IsNone(r.delta) || r.delta.Int?)
    && (IsNone(r.gap) || Natural(r.gap)) && (IsNone(r.cpu) || Natural(r.cpu))
    && (IsNone(r.elapsedMono) || Natural(r.elapsedMono)) && (IsNone(r.elapsedBoot) || Natural(r.elapsedBoot))
  }

  lemma FieldsExactly(r: Record, k: nat)
    ensures FieldErrors(r, k) == [] <==> WellTyped(r)
  {
  }

  lemma {:induction false} FieldPassExactly(rs: seq<Record>, k: nat)
    requires k <= |rs|
    ensures FieldPass(rs, k) == [] <==> forall i | 0 <= i < k :: WellTyped(rs[i])
  {
    hide FieldErrors, WellTyped;
    if k > 0 {
      FieldPassExactly(rs, k - 1);
      FieldsExactly(rs[k - 1], k);
    }
  }

  lemma SequencesExactly(rs: seq<Record>)
    ensures SequenceErrors(rs) == [] <==> forall i | 0 <= i < |rs| :: rs[i].sequence == Int(i)
  {
    if Contiguous(rs) {
      assert IntSequences(rs);
    }
  }

  // ----- neighbours -----

  /** Clocks that do not go back, the gap between them as recorded and in bounds, a short pair read. */
  predicate Follows(left: Record, right: Record)
    requires WellTyped(left) && WellTyped(right)
  {
    && left.boot.n <= right.boot.n
    && right.gap == Int(right.mono.n - left.mono.n) && 0 <= right.gap.n <= 500_000_000
    && right.span.n <= 100_000_000
  }

  lemma PairExactly(left: Record, right: Record)
    requires WellTyped(left) && WellTyped(right)
    ensures PairErrors(left, right) == [] && GoodGap(right) && right.gap.n <= MAX_GAP_NS <==> Follows(left, right)
  {
  }

  lemma {:induction false} PairPassExactly(ts: seq<Record>, k: nat)
    requires k == 0 || k < |ts|
    ensures PairPass(ts, k) == [] <==> forall i | 0 <= i < k :: PairErrors(ts[i], ts[i + 1]) == []
  {
    hide PairErrors;
    if k > 0 {
      PairPassExactly(ts, k - 1);
    }
  }

  predicate RecordOk(r: Record)
    requires WellTyped(r)
  {
    && OffsetOk(r)
    && (IsPoint(r) ==> r.gap.Int? && 0 <= r.gap.n <= 500_000_000)
  }

  lemma RecordExactly(r: Record)
    requires WellTyped(r)
    ensures RecordErrors(r) == [] <==> RecordOk(r)
  {
  }

  lemma {:induction false} RecordPassExactly(ts: seq<Record>, k: nat)
    requires k <= |ts| && forall i | 0 <= i < k :: WellTyped(ts[i])
    ensures RecordPass(ts, k) == [] <==> forall i | 0 <= i < k :: RecordOk(ts[i])
  {
    hide RecordErrors, WellTyped, RecordOk;
    if k > 0 {
      RecordPassExactly(ts, k - 1);
      RecordExactly(ts[k - 1]);
    }
  }

  lemma {:induction false} OffsetsExactly(ts: seq<Record>, k: nat)
    requires k <= |ts| && forall i | 0 <= i < k :: HasClocks(ts[i])
    ensures |Offsets(ts, k)| == k && forall i | 0 <= i < k :: Offsets(ts, k)[i] == OffsetOf(ts[i])
  {
    if k > 0 {
      OffsetsExactly(ts, k - 1);
    }
  }

  lemma {:induction false} StepsExactly(offsets: seq<int>, threshold: int, k: nat)
    requires k == 0 || k < |offsets|
    ensures StepPass(offsets, threshold, k) == [] <==>
      forall i | 0 <= i < k :: offsets[i + 1] - offsets[i] >= -threshold
  {
    if k > 0 {
      StepsExactly(offsets, threshold, k - 1);
    }
  }

  lemma OffsetErrorsExactly(offsets: seq<int>, threshold: int)
    requires offsets != [] && threshold >= 0
    ensures OffsetErrors(offsets, threshold) == [] <==>
      forall i | 0 <= i < |offsets| - 1 :: offsets[i + 1] - offsets[i] >= -threshold
  {
    StepsExactly(offsets, threshold, |offsets| - 1);
    MaxChangeIsNatural(offsets);
  }

  // ----- points against the start -----

  predicate Measured(r: Record, start: Record)
    requires WellTyped(r) && WellTyped(start)
  {
    && r.elapsedMono == Int(r.mono.n - start.mono.n)
    && r.elapsedBoot == Int(r.boot.n - start.boot.n)
    && r.delta == Int(OffsetOf(r) - OffsetOf(start))
  }

  lemma MeasuredExactly(r: Record, start: Record)
    requires WellTyped(r) && WellTyped(start)
    ensures ElapsedErrors(r, start, OffsetOf(start)) == Some([]) <==> Measured(r, start)
  {
  }

  lemma {:induction false} ElapsedPassExactly(ps: seq<Record>, start: Record, k: nat)
    requires k <= |ps| && WellTyped(start) && forall i | 0 <= i < |ps| :: WellTyped(ps[i])
    ensures ElapsedPass(ps, start, OffsetOf(start), k) == Some([]) <==>
      forall i | 0 <= i < k :: Measured(ps[i], start)
  {
    var baseline := OffsetOf(start);
    hide ElapsedErrors, WellTyped, Measured;
    if k > 0 {
      ElapsedPassExactly(ps, start, k - 1);
      MeasuredExactly(ps[k - 1], start);
      var front, last := ElapsedPass(ps, start, baseline, k - 1), ElapsedErrors(ps[k - 1], start, baseline);
      assert front.Some? && last.Some? ==> (front.value + last.value == [] <==> front.value == [] && last.value == []);
    }
  }

  predicate BootOk(r: Record, m: Record) {
    && r.bootStatus != Str("MISMATCH")
    && (r.bootStatus == Str("AVAILABLE") && r.bootId.Str? && !IsNone(m.bootId) ==> r.bootId == m.bootId)
  }

  lemma {:induction false} BootPassExactly(ps: seq<Record>, m: Record, k: nat)
    requires k <= |ps|
    ensures BootPass(ps, m, k) == [] <==> forall i | 0 <= i < k :: BootOk(ps[i], m)
  {
    if k > 0 {
      BootPassExactly(ps, m, k - 1);
    }
  }

  // ----- whole timelines -----

  predicate AllTyped(rs: seq<Record>) {
    forall i | 0 <= i < |rs| :: WellTyped(rs[i])
  }

  /** A start that is no point, and points behind it. */
  predicate StartAndPoints(ts: seq<Record>) {
    |ts| >= 2 && !IsPoint(ts[0]) && forall i | 1 <= i < |ts| :: IsPoint(ts[i])
  }

  predicate OffsetOk(r: Record)
    requires WellTyped(r)
  {
    r.offset == Int(r.boot.n - r.mono.n)
  }

  predicate AllOffsets(ts: seq<Record>)
    requires AllTyped(ts)
  {
    forall i | 0 <= i < |ts| :: OffsetOk(ts[i])
  }

  predicate AllFollow(ts: seq<Record>)
    requires AllTyped(ts)
  {
    forall i | 0 <= i < |ts| - 1 :: Follows(ts[i], ts[i + 1])
  }

  /** No step of the offset falls by more than the detection threshold. */
  predicate AllSteps(ts: seq<Record>, threshold: int)
    requires AllTyped(ts)
  {
    forall i | 0 <= i < |ts| - 1 :: OffsetOf(ts[i + 1]) - OffsetOf(ts[i]) >= -threshold
  }

  predicate AllMeasured(ts: seq<Record>)
    requires AllTyped(ts) && ts != []
  {
    forall i | 1 <= i < |ts| :: Measured(ts[i], ts[0])
  }

  predicate AllAttended(ts: seq<Record>, m: Record) {
    forall i | 1 <= i < |ts| :: BootOk(ts[i], m) && Readable(ts[i])
  }

  /** The three kinds of record, counted and placed. */
  predicate Arranged(rs: seq<Record>) {
    && rs != [] && OneTrial(rs)
    && |OfKind(rs, "metadata")| == 1 && IsKind(rs[0], "metadata")
    && |OfKind(rs, "end")| == 1 && IsKind(rs[|rs| - 1], "end")
    && rs[|rs| - 1].termination == Str("completed")
    && |OfKind(rs, "sample")| >= 2
  }

  predicate Configured(m: Record) {
    && m.intervalMs.Int? && 100 <= m.intervalMs.n <= 200
    && m.monoResolution.Int? && m.monoResolution.n > 0 && m.bootResolution.Int? && m.bootResolution.n > 0
  }

  lemma {:induction false} KindsAreMembers(rs: seq<Record>, kind: string, r: Record)
    ensures r in OfKind(rs, kind) <==> r in rs && IsKind(r, kind)
  {
    if rs != [] {
      KindsAreMembers(rs[..|rs| - 1], kind, r);
      assert rs == rs[..|rs| - 1] + [rs[|rs| - 1]];
    }
  }

  lemma OnlyOne(s: seq<Record>, r: Record)
    requires |s| == 1 && r in s
    ensures s[0] == r
  {
  }

  /** The timeline of an arranged run: its first record, its samples and its last record. */
  lemma ArrangedTimeline(rs: seq<Record>)
    requires Arranged(rs)
    ensures MetadataOf(rs) == rs[0] && EndOf(rs) == Some(rs[|rs| - 1])
    ensures PointsOf(rs) == OfKind(rs, "sample") + [rs[|rs| - 1]]
    ensures TimelineOf(rs) == [rs[0]] + PointsOf(rs)
  {
    KindsAreMembers(rs, "metadata", rs[0]);
    KindsAreMembers(rs, "end", rs[|rs| - 1]);
    hide OfKind, IsKind, OneTrial;
    OnlyOne(OfKind(rs, "metadata"), rs[0]);
    OnlyOne(OfKind(rs, "end"), rs[|rs| - 1]);
  }

  lemma TimelineTyped(rs: seq<Record>)
    requires Arranged(rs) && AllTyped(rs)
    ensures |TimelineOf(rs)| == |OfKind(rs, "sample")| + 2 && TimelineOf(rs)[0] == rs[0]
    ensures TimelineOf(rs)[|TimelineOf(rs)| - 1] == rs[|rs| - 1]
    ensures AllTyped(TimelineOf(rs)) && StartAndPoints(TimelineOf(rs))
    ensures PointsOf(rs) == TimelineOf(rs)[1..]
  {
    ArrangedTimeline(rs);
    LastIsEnd(rs);
    FirstIsMetadata(rs);
    MetadataIsNoPoint(rs[0]);
    hide WellTyped, Arranged, OneTrial;
    var samples := OfKind(rs, "sample");
    forall i | 0 <= i < |samples| ensures WellTyped(samples[i]) && IsPoint(samples[i]) {
      assert samples[i] in samples;
    }
  }

  lemma MetadataIsNoPoint(r: Record)
    requires IsKind(r, "metadata")
    ensures !IsPoint(r)
  {
  }

  lemma FirstIsMetadata(rs: seq<Record>)
    requires Arranged(rs)
    ensures IsKind(rs[0], "metadata") && rs != []
  {
  }

  lemma LastIsEnd(rs: seq<Record>)
    requires Arranged(rs)
    ensures IsKind(rs[|rs| - 1], "end")
  {
  }

  /** The conditions on the clocks of a timeline. */
  predicate GoodClocks(ts: seq<Record>, threshold: int)
    requires AllTyped(ts) && ts != []
  {
    AllOffsets(ts) && AllFollow(ts) && AllSteps(ts, threshold) && AllMeasured(ts)
  }

  /** Every condition the verdict rests on, record by record. */
  ghost predicate GoodTimeline(rs: seq<Record>) {
    && Arranged(rs) && AllTyped(rs) && Configured(rs[0])
    && (forall i | 0 <= i < |rs| :: rs[i].sequence == Int(i))
    && EqualsInt(rs[|rs| - 1].sampleCount, |OfKind(rs, "sample")|)
    && AllTyped(TimelineOf(rs)) && TimelineOf(rs) != []
    && GoodClocks(TimelineOf(rs), Threshold(rs[0], TimelineOf(rs)))
    && AllAttended(TimelineOf(rs), rs[0])
  }

  lemma StructureExactly(rs: seq<Record>)
    requires rs != []
    ensures StructureErrors(rs) == [] && SettingErrors(rs) == [] <==> Arranged(rs) && Configured(MetadataOf(rs))
  {
    if |OfKind(rs, "end")| == 1 && IsKind(rs[|rs| - 1], "end") {
      KindsAreMembers(rs, "end", rs[|rs| - 1]);
      OnlyOne(OfKind(rs, "end"), rs[|rs| - 1]);
    }
    hide OfKind, OneTrial, GoodResolution, MetadataOf, IsKind;
  }

  // The timeline passes, on an arranged and typed run.

  lemma AllFollowExactly(ts: seq<Record>)
    requires AllTyped(ts) && StartAndPoints(ts)
    requires forall i | 1 <= i < |ts| :: GoodGap(ts[i]) && ts[i].gap.n <= MAX_GAP_NS
    ensures PairPass(ts, |ts| - 1) == [] <==> AllFollow(ts)
  {
    PairPassExactly(ts, |ts| - 1);
    hide PairErrors, IsPoint, PairPass, WellTyped, GoodGap, Follows;
    forall i | 0 <= i < |ts| - 1
      ensures PairErrors(ts[i], ts[i + 1]) == [] <==> Follows(ts[i], ts[i + 1])
    {
      PairExactly(ts[i], ts[i + 1]);
    }
  }

  lemma FollowersHaveGaps(ts: seq<Record>)
    requires AllTyped(ts) && AllFollow(ts)
    ensures forall i | 1 <= i < |ts| :: GoodGap(ts[i]) && ts[i].gap.n <= MAX_GAP_NS
  {
    hide WellTyped;
    forall i | 1 <= i < |ts| ensures GoodGap(ts[i]) && ts[i].gap.n <= MAX_GAP_NS {
      assert Follows(ts[i - 1], ts[i - 1 + 1]);
    }
  }

  lemma AllRecordsExactly(ts: seq<Record>)
    requires AllTyped(ts) && StartAndPoints(ts)
    ensures RecordPass(ts, |ts|) == [] <==>
      AllOffsets(ts) && forall i | 1 <= i < |ts| :: GoodGap(ts[i]) && ts[i].gap.n <= MAX_GAP_NS
  {
    hide WellTyped, IsPoint, RecordPass;
    RecordPassExactly(ts, |ts|);
    hide OffsetOk, RecordErrors;
    forall i | 0 <= i < |ts|
      ensures RecordOk(ts[i]) <==> OffsetOk(ts[i]) && (i > 0 ==> GoodGap(ts[i]) && ts[i].gap.n <= MAX_GAP_NS)
    {
    }
    hide RecordOk;
  }

  lemma PairsAndRecordsExactly(ts: seq<Record>)
    requires AllTyped(ts) && StartAndPoints(ts)
    ensures PairPass(ts, |ts| - 1) == [] && RecordPass(ts, |ts|) == [] <==> AllOffsets(ts) && AllFollow(ts)
  {
    AllRecordsExactly(ts);
    if forall i | 1 <= i < |ts| :: GoodGap(ts[i]) && ts[i].gap.n <= MAX_GAP_NS {
      AllFollowExactly(ts);
    }
    if AllFollow(ts) {
      FollowersHaveGaps(ts);
    }
  }

  lemma AllStepsExactly(ts: seq<Record>, threshold: int)
    requires AllTyped(ts) && ts != [] && threshold >= 0
    ensures Offsets(ts, |ts|) != [] && Offsets(ts, |ts|)[0] == OffsetOf(ts[0])
    ensures OffsetErrors(Offsets(ts, |ts|), threshold) == [] <==> AllSteps(ts, threshold)
  {
    OffsetsExactly(ts, |ts|);
    hide WellTyped, Offsets, OffsetErrors, OffsetOf;
    OffsetErrorsExactly(Offsets(ts, |ts|), threshold);
  }

  predicate TailMeasured(ps: seq<Record>, start: Record)
    requires AllTyped(ps) && WellTyped(start)
  {
    forall i | 0 <= i < |ps| :: Measured(ps[i], start)
  }

  lemma TailIsTyped(ts: seq<Record>)
    requires AllTyped(ts) && ts != []
    ensures WellTyped(ts[0]) && AllTyped(ts[1..])
  {
    hide WellTyped;
  }

  lemma TailMeasuredExactly(ts: seq<Record>)
    requires AllTyped(ts) && ts != [] && WellTyped(ts[0]) && AllTyped(ts[1..])
    ensures TailMeasured(ts[1..], ts[0]) <==> AllMeasured(ts)
  {
    hide WellTyped, Measured;
    var ps := ts[1..];
    if TailMeasured(ps, ts[0]) {
      forall i | 1 <= i < |ts| ensures Measured(ts[i], ts[0]) {
        assert Measured(ps[i - 1], ts[0]);
      }
    }
  }

  lemma AllMeasuredExactly(ts: seq<Record>)
    requires AllTyped(ts) && ts != []
    ensures ElapsedPass(ts[1..], ts[0], OffsetOf(ts[0]), |ts| - 1) == Some([]) <==> AllMeasured(ts)
  {
    hide ElapsedPass, Measured, AllMeasured;
    TailIsTyped(ts);
    TailMeasuredExactly(ts);
    ElapsedPassExactly(ts[1..], ts[0], |ts| - 1);
  }

  lemma ClockExactly(rs: seq<Record>)
    requires Arranged(rs) && AllTyped(rs)
    ensures AllTyped(TimelineOf(rs)) && TimelineOf(rs) != []
    ensures ClockErrors(rs) == Some([]) <==>
      AllSteps(TimelineOf(rs), Threshold(rs[0], TimelineOf(rs))) && AllMeasured(TimelineOf(rs))
  {
    hide OfKind, TimelineOf, PointsOf, Threshold, ElapsedPass, OffsetErrors, AllMeasured, AllSteps, MetadataOf,
      AllTyped, Offsets, StartAndPoints, OneTrial, OffsetOf;
    ArrangedTimeline(rs);
    TimelineTyped(rs);
    var ts := TimelineOf(rs);
    ThresholdIsPositive(rs[0], ts);
    AllStepsExactly(ts, Threshold(rs[0], ts));
    AllMeasuredExactly(ts);
  }

  lemma AllAttendedExactly(ts: seq<Record>, m: Record)
    requires ts != []
    ensures BootPass(ts[1..], m, |ts| - 1) == [] && CountReadable(ts[1..], |ts| - 1) == |ts| - 1 <==> AllAttended(ts, m)
  {
    var ps := ts[1..];
    assert forall i | 0 <= i < |ps| :: ps[i] == ts[i + 1];
    BootPassExactly(ps, m, |ps|);
    hide BootOk, Readable, BootPass;
    if forall i | 0 <= i < |ps| :: BootOk(ps[i], m) && Readable(ps[i]) {
      forall i | 1 <= i < |ts| ensures BootOk(ts[i], m) && Readable(ts[i]) {
        assert BootOk(ps[i - 1], m) && Readable(ps[i - 1]);
      }
    }
  }

  /** The analyzer's passes find nothing exactly on the good timelines. */
  lemma CleanExactly(rs: seq<Record>)
    requires rs != []
    ensures Clean(rs) <==> GoodTimeline(rs)
  {
    hide FieldPass, SequenceErrors, StructureErrors, SettingErrors, WellTyped, PairPass, RecordPass, ClockErrors, BootPass,
      CountReadable, OfKind, Configured, TimelineOf, PointsOf, Threshold, Arranged, AllOffsets, AllFollow, AllSteps,
      AllMeasured, AllAttended, StartAndPoints, MetadataOf, EndOf, EqualsInt;
    FieldPassExactly(rs, |rs|);
    assert FieldPass(rs, |rs|) == [] <==> AllTyped(rs);
    SequencesExactly(rs);
    StructureExactly(rs);
    if Arranged(rs) && AllTyped(rs) {
      ArrangedTimeline(rs);
      TimelineTyped(rs);
      PairsAndRecordsExactly(TimelineOf(rs));
      ClockExactly(rs);
      AllAttendedExactly(TimelineOf(rs), rs[0]);
    }
  }

  // ----- the whole interval is covered -----

  function Sum(s: seq<int>): int {
    if s == [] then 0 else Sum(s[..|s| - 1]) + s[|s| - 1]
  }

  /** The gaps telescope: up to any record they add up to the clock since the start. */
  lemma {:induction false} GapsTelescope(ts: seq<Record>, k: nat)
    requires 0 < k <= |ts| && AllTyped(ts) && StartAndPoints(ts) && AllFollow(ts)
    ensures |Gaps(ts, k)| == k - 1
    ensures ts[k - 1].mono.Int? && ts[0].mono.Int?
    ensures Sum(Gaps(ts, k)) == ts[k - 1].mono.n - ts[0].mono.n
    ensures 0 <= Sum(Gaps(ts, k)) <= MAX_GAP_NS * (k - 1)
  {
    hide IsPoint;
    if k == 1 {
      assert Gaps(ts, 1) == Gaps(ts, 0) + [] == [];
    } else {
      GapsTelescope(ts, k - 1);
      assert Follows(ts[k - 2], ts[k - 2 + 1]);
      var g := ts[k - 1].gap.n;
      assert Gaps(ts, k) == Gaps(ts, k - 1) + [g];
      assert Gaps(ts, k)[..k - 2] == Gaps(ts, k - 1);
    }
  }

  lemma GoodTimelineIsCovered(rs: seq<Record>)
    requires GoodTimeline(rs)
    ensures
      var ts := TimelineOf(rs);
      var end := rs[|rs| - 1];
      && end.mono.Int? && rs[0].mono.Int?
      && Sum(Gaps(ts, |ts|)) == end.mono.n - rs[0].mono.n
      && end.elapsedMono == Int(Sum(Gaps(ts, |ts|)))
      && 0 <= Sum(Gaps(ts, |ts|)) <= MAX_GAP_NS * (|OfKind(rs, "sample")| + 1)
  {
    hide GoodTimeline, Arranged, OfKind, Gaps, Sum, TimelineOf, PointsOf, AllTyped, AllFollow, AllMeasured, StartAndPoints;
    var ts := TimelineOf(rs);
    GoodTimelineParts(rs);
    ArrangedTimeline(rs);
    TimelineTyped(rs);
    GapsTelescope(ts, |ts|);
    LastIsMeasured(ts);
  }

  lemma GoodTimelineParts(rs: seq<Record>)
    requires GoodTimeline(rs)
    ensures rs != [] && Arranged(rs) && AllTyped(rs) && AllTyped(TimelineOf(rs)) && TimelineOf(rs) != []
    ensures AllFollow(TimelineOf(rs)) && AllMeasured(TimelineOf(rs))
  {
    hide OfKind, OneTrial, AllTyped, TimelineOf, AllFollow, AllMeasured, AllSteps, AllOffsets, AllAttended, Threshold, EqualsInt;
  }

  lemma LastIsMeasured(ts: seq<Record>)
    requires |ts| >= 2 && AllTyped(ts) && AllMeasured(ts)
    ensures ts[|ts| - 1].mono.Int? && ts[0].mono.Int?
    ensures ts[|ts| - 1].elapsedMono == Int(ts[|ts| - 1].mono.n - ts[0].mono.n)
  {
    assert Measured(ts[|ts| - 1], ts[0]);
  }

  /**
   Fail closed: an affirmative verdict leaves no error but parse errors the caller supplied as set
   aside, and its sampling gaps add up to the end record's elapsed time, at most half a second each.
   */
  lemma AffirmativeCoversTheInterval(rs: seq<Record>, parse: seq<string>)
    requires Affirms(AnalyzeResult(rs, parse))
    ensures
      var report := AnalyzeResult(rs, parse).value;
      && GoodTimeline(rs) && !ContextUnknown(rs)
      && report.errors == ParseErrors(parse) && SetAside(parse)
      && report.cgroupSamples == report.sampleCount + 1
      && rs[|rs| - 1].elapsedMono == Int(Sum(report.gaps))
      && 0 <= Sum(report.gaps) <= 500_000_000 * (report.sampleCount + 1)
      && (report.status == SUSPEND_OBSERVED <==>
            report.maxOffsetChange.Some? && report.maxOffsetChange.value > report.threshold)
  {
    hide Clean, ContextUnknown, Gaps, Sum, OfKind, ClockErrors, EarlyErrors, LateErrors, Threshold, MaxChange,
      Offsets, Warnings, ParseErrors, SetAside, CountReadable, TimelineOf, PointsOf, Arranged, AllTyped, GoodClocks,
      AllAttended, Configured;
    AffirmativeExactly(rs, parse);
    CleanExactly(rs);
    GoodTimelineIsCovered(rs);
    KnownContextIsReadable(rs);
    ArrangedTimeline(rs);
  }
}
