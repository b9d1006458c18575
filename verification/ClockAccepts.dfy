/**
 The observer's runs under the analyzer: a complete run gets an affirmative verdict exactly in
 the environments the observer was written for.
 */
module ClockAccepts {
  import opened Wrappers
  import opened ClockArith
  import opened JsonValues
  import opened ClockRecords
  import opened ClockAnalyzer
  import opened ClockVerdict
  import opened ClockTimeline
  import opened ClockObserver
  import opened ClockMargin

  /** What the option parser lets through. */
  predicate Launched(s: Session) {
    && 100 <= s.intervalMs <= 200
    && (s.trialPid.Some? ==> s.trialPid.value > 0)
  }

  // ----- the environment of an accepted run -----

  function RealOffset(c: ClockSample): int {
    c.boot - c.mono
  }

  function SpansOf(cs: seq<ClockSample>): seq<int> {
    seq(|cs|, k requires 0 <= k < |cs| => cs[k].span)
  }

  function CoarserResolution(s: Session): int {
    if s.monoResolution >= s.bootResolution then s.monoResolution else s.bootResolution
  }

  /** The detection margin of a run, from the samples' own spans. */
  ghost predicate RunMargin(s: Session, cs: seq<ClockSample>, margin: int) {
    IsMargin(CoarserResolution(s), SpansOf(cs), margin)
  }

  function EnvMargin(s: Session, cs: seq<ClockSample>): int {
    MarginOf(Some(CoarserResolution(s)), SpansOf(cs))
  }

  lemma RunMarginExactly(s: Session, cs: seq<ClockSample>, margin: int)
    ensures RunMargin(s, cs, margin) <==> margin == EnvMargin(s, cs)
  {
    hide IsMargin, MarginOf;
    MarginExactly(CoarserResolution(s), SpansOf(cs), margin);
  }

  predicate Forward(before: ClockSample, after: ClockSample) {
    && before.boot <= after.boot
    && 0 <= after.mono - before.mono <= 500_000_000
    && after.span <= 100_000_000
  }

  /** No offset falls below its predecessor by more than the margin. */
  predicate StepsWithin(cs: seq<ClockSample>, margin: int) {
    forall k | 0 <= k < |cs| - 1 :: RealOffset(cs[k + 1]) - RealOffset(cs[k]) >= -margin
  }

  /** Some offset exceeds the first one by more than the margin. */
  predicate RisesAbove(cs: seq<ClockSample>, margin: int) {
    exists k :: 0 <= k < |cs| && RealOffset(cs[k]) - RealOffset(cs[0]) > margin
  }

  ghost predicate StepsOk(s: Session, cs: seq<ClockSample>) {
    exists margin :: RunMargin(s, cs, margin) && StepsWithin(cs, margin)
  }

  ghost predicate ClocksOk(s: Session, cs: seq<ClockSample>) {
    && (forall k | 0 <= k < |cs| :: 0 <= RealOffset(cs[k]) <= I64_MAX)
    && (forall k | 0 <= k < |cs| - 1 :: Forward(cs[k], cs[k + 1]))
    && StepsOk(s, cs)
  }

  predicate Attended(s: Session, r: Read) {
    && ReadBootId(r) == ReadBootId(s.first)
    && r.cgroup == CgroupRead("AVAILABLE", 0, 1)
  }

  predicate Bound(s: Session) {
    && ReadBootId(s.first).Some?
    && s.trialPid.Some? && s.binding.status == "AVAILABLE" && s.binding.path != ""
  }

  ghost predicate EnvironmentOk(s: Session, turns: seq<Read>, cs: seq<ClockSample>)
    requires |cs| <= |turns| + 1
  {
    && |cs| >= 4 && s.monoResolution > 0 && s.bootResolution > 0 && Bound(s)
    && ClocksOk(s, cs)
    && (forall k | 0 <= k < |cs| - 1 :: Attended(s, turns[k]))
  }

  // ----- the emitted records -----

  lemma Kinds(s: Session, turns: seq<Read>, cs: seq<ClockSample>, k: nat)
    requires 3 <= |cs| <= |turns| + 1 && k < |cs|
    ensures
      var r := RecordAt(s, turns, cs, k);
      && (IsKind(r, "metadata") <==> 0 <= k < 1)
      && (IsKind(r, "sample") <==> 1 <= k < |cs| - 1)
      && (IsKind(r, "end") <==> |cs| - 1 <= k < |cs|)
      && r.trialId == Str(s.trialId) && r.sequence == Int(k)
  {
  }

  function Least(a: nat, b: nat): nat {
    if a <= b then a else b
  }

  lemma NoKind(rs: seq<Record>, kind: string)
    ensures OfKind(rs[..0], kind) == []
  {
  }

  lemma StretchGrows(rs: seq<Record>, lo: nat, hi: nat, k: nat)
    requires lo <= hi <= |rs| && 0 < k <= |rs|
    ensures rs[Least(lo, k)..Least(hi, k)] ==
            rs[Least(lo, k - 1)..Least(hi, k - 1)] + if lo <= k - 1 < hi then [rs[k - 1]] else []
  {
  }

  lemma KindPrefix(rs: seq<Record>, kind: string, k: nat)
    requires 0 < k <= |rs|
    ensures OfKind(rs[..k], kind) == OfKind(rs[..k - 1], kind) + if IsKind(rs[k - 1], kind) then [rs[k - 1]] else []
  {
    hide IsKind;
    assert rs[..k][..k - 1] == rs[..k - 1] && rs[..k][k - 1] == rs[k - 1];
  }

  /** The records of one kind are a stretch of the run. */
  lemma {:induction false} KindRange(rs: seq<Record>, kind: string, lo: nat, hi: nat, k: nat)
    requires lo <= hi <= |rs| && k <= |rs|
    requires forall i | 0 <= i < |rs| :: IsKind(rs[i], kind) <==> lo <= i < hi
    ensures OfKind(rs[..k], kind) == rs[Least(lo, k)..Least(hi, k)]
  {
    hide IsKind, OfKind;
    if k == 0 {
      NoKind(rs, kind);
    } else {
      KindRange(rs, kind, lo, hi, k - 1);
      KindPrefix(rs, kind, k);
      StretchGrows(rs, lo, hi, k);
    }
  }

  lemma RunKinds(s: Session, turns: seq<Read>, cs: seq<ClockSample>)
    requires 3 <= |cs| <= |turns| + 1
    ensures
      var rs := RunRecords(s, turns, cs);
      && OfKind(rs, "metadata") == [rs[0]] && OfKind(rs, "sample") == rs[1..|rs| - 1] && OfKind(rs, "end") == [rs[|rs| - 1]]
      && IsKind(rs[0], "metadata") && IsKind(rs[|rs| - 1], "end")
  {
    hide RecordAt, OfKind, IsKind;
    var rs := RunRecords(s, turns, cs);
    forall i | 0 <= i < |rs|
      ensures IsKind(rs[i], "metadata") <==> 0 <= i < 1
      ensures IsKind(rs[i], "sample") <==> 1 <= i < |cs| - 1
      ensures IsKind(rs[i], "end") <==> |cs| - 1 <= i < |cs|
    {
      Kinds(s, turns, cs, i);
    }
    hide RunRecords;
    assert rs[..|rs|] == rs;
    KindRange(rs, "metadata", 0, 1, |rs|);
    KindRange(rs, "sample", 1, |rs| - 1, |rs|);
    KindRange(rs, "end", |rs| - 1, |rs|, |rs|);
  }

  lemma RunIsOneTrial(s: Session, turns: seq<Read>, cs: seq<ClockSample>)
    requires 3 <= |cs| <= |turns| + 1
    ensures OneTrial(RunRecords(s, turns, cs))
  {
    hide RecordAt, IsKind;
    var rs := RunRecords(s, turns, cs);
    forall i | 0 <= i < |rs| ensures rs[i].trialId == Str(s.trialId) {
      Kinds(s, turns, cs, i);
    }
  }

  lemma RunArrangement(s: Session, turns: seq<Read>, cs: seq<ClockSample>)
    requires 3 <= |cs| <= |turns| + 1
    ensures
      var rs := RunRecords(s, turns, cs);
      && |OfKind(rs, "sample")| == |cs| - 2 && MetadataOf(rs) == rs[0] && EndOf(rs) == Some(rs[|rs| - 1])
      && TimelineOf(rs) == rs && PointsOf(rs) == rs[1..]
      && (Arranged(rs) <==> |cs| >= 4)
  {
    hide RecordAt, OfKind, IsKind, OneTrial;
    RunKinds(s, turns, cs);
    RunIsOneTrial(s, turns, cs);
    EndIsCompleted(s, turns, cs);
    var rs := RunRecords(s, turns, cs);
    assert rs[|rs| - 1] == RecordAt(s, turns, cs, |cs| - 1) && |rs| == |cs|;
    hide RunRecords;
    assert rs[1..|rs| - 1] + [rs[|rs| - 1]] == rs[1..];
    assert [rs[0]] + rs[1..] == rs;
  }

  lemma EndIsCompleted(s: Session, turns: seq<Read>, cs: seq<ClockSample>)
    requires 3 <= |cs| <= |turns| + 1
    ensures
      var end := RecordAt(s, turns, cs, |cs| - 1);
      end.termination == Str("completed") && end.sampleCount == Int(|cs| - 2)
  {
  }

  lemma PointIsTyped(
      s: Session, kind: string, k: nat, c: ClockSample, start: ClockSample, previous: ClockSample, r: Read)
    ensures
      var p := EmitPoint(s, kind, k, c, start, previous, r);
      && WellTyped(p) && p.mono == Int(c.mono) && p.boot == Int(c.boot) && p.span == Int(c.span)
  {
    hide OffsetOfSample, DeltaBetween;
  }

  lemma RecordIsTyped(s: Session, turns: seq<Read>, cs: seq<ClockSample>, k: nat)
    requires 3 <= |cs| <= |turns| + 1 && k < |cs|
    ensures
      var r := RecordAt(s, turns, cs, k);
      && WellTyped(r) && r.mono == Int(cs[k].mono) && r.boot == Int(cs[k].boot) && r.span == Int(cs[k].span)
  {
    if k > 0 {
      PointIsTyped(s, if k < |cs| - 1 then "sample" else "end", k, cs[k], cs[0], cs[k - 1], turns[k - 1]);
    }
    hide EmitPoint, OffsetOfSample;
  }

  lemma RunIsTyped(s: Session, turns: seq<Read>, cs: seq<ClockSample>)
    requires 3 <= |cs| <= |turns| + 1
    ensures AllTyped(RunRecords(s, turns, cs)) && |RunRecords(s, turns, cs)| == |cs|
    ensures forall k | 0 <= k < |cs| :: RunRecords(s, turns, cs)[k].sequence == Int(k)
  {
    hide RecordAt, WellTyped;
    forall k | 0 <= k < |cs|
      ensures WellTyped(RunRecords(s, turns, cs)[k]) && RunRecords(s, turns, cs)[k].sequence == Int(k)
    {
      RecordIsTyped(s, turns, cs, k);
      Kinds(s, turns, cs, k);
    }
  }

  // ----- the clock conditions, record by record -----

  /** The fields of a point, sample and end record alike. */
  lemma PointFields(s: Session, turns: seq<Read>, cs: seq<ClockSample>, k: nat)
    requires 3 <= |cs| <= |turns| + 1 && 0 < k < |cs|
    ensures
      var r := RecordAt(s, turns, cs, k);
      && r.offset == Optional(OffsetOfSample(cs[k])) && r.delta == Optional(DeltaBetween(cs[k], cs[0]))
      && r.gap == Optional(DifferenceU64(cs[k].mono, cs[k - 1].mono))
      && r.elapsedMono == Optional(DifferenceU64(cs[k].mono, cs[0].mono))
      && r.elapsedBoot == Optional(DifferenceU64(cs[k].boot, cs[0].boot))
  {
    hide OffsetOfSample, DeltaBetween, Optional;
  }

  lemma OffsetWritten(s: Session, turns: seq<Read>, cs: seq<ClockSample>, k: nat)
    requires 3 <= |cs| <= |turns| + 1 && k < |cs|
    ensures
      var r := RecordAt(s, turns, cs, k);
      WellTyped(r) && (OffsetOk(r) <==> -I64_MAX <= RealOffset(cs[k]) <= I64_MAX)
  {
    RecordIsTyped(s, turns, cs, k);
    if k > 0 {
      PointFields(s, turns, cs, k);
    }
    hide EmitPoint, WellTyped, EmitEnd, SampleRecord;
    assert RecordAt(s, turns, cs, k).offset == Optional(OffsetOfSample(cs[k]));
    hide RecordAt;
  }

  lemma FollowsWritten(s: Session, turns: seq<Read>, cs: seq<ClockSample>, k: nat)
    requires 3 <= |cs| <= |turns| + 1 && k + 1 < |cs|
    ensures
      var l, r := RecordAt(s, turns, cs, k), RecordAt(s, turns, cs, k + 1);
      WellTyped(l) && WellTyped(r) && (Follows(l, r) <==> Forward(cs[k], cs[k + 1]))
  {
    RecordIsTyped(s, turns, cs, k);
    RecordIsTyped(s, turns, cs, k + 1);
    PointFields(s, turns, cs, k + 1);
    hide RecordAt, WellTyped;
  }

  lemma MeasuredWritten(s: Session, turns: seq<Read>, cs: seq<ClockSample>, k: nat)
    requires 3 <= |cs| <= |turns| + 1 && 0 < k < |cs|
    ensures
      var r, m := RecordAt(s, turns, cs, k), RecordAt(s, turns, cs, 0);
      && WellTyped(r) && WellTyped(m)
      && (Measured(r, m) <==>
            && cs[0].mono <= cs[k].mono && cs[0].boot <= cs[k].boot
            && 0 <= RealOffset(cs[0]) <= I64_MAX && 0 <= RealOffset(cs[k]) <= I64_MAX)
  {
    RecordIsTyped(s, turns, cs, k);
    RecordIsTyped(s, turns, cs, 0);
    PointFields(s, turns, cs, k);
    hide RecordAt, WellTyped;
  }

  lemma {:induction false} ForwardChain(cs: seq<ClockSample>, k: nat)
    requires k < |cs| && forall i | 0 <= i < |cs| - 1 :: Forward(cs[i], cs[i + 1])
    ensures cs[0].mono <= cs[k].mono && cs[0].boot <= cs[k].boot
  {
    if k > 0 {
      ForwardChain(cs, k - 1);
      assert Forward(cs[k - 1], cs[k - 1 + 1]);
    }
  }

  lemma {:induction false} SpansWritten(s: Session, turns: seq<Read>, cs: seq<ClockSample>, k: nat)
    requires 3 <= |cs| <= |turns| + 1 && k <= |cs|
    ensures Spans(RunRecords(s, turns, cs), k) == SpansOf(cs)[..k]
  {
    hide RecordAt;
    if k > 0 {
      SpansWritten(s, turns, cs, k - 1);
      RecordIsTyped(s, turns, cs, k - 1);
    }
  }

  lemma ThresholdWritten(s: Session, turns: seq<Read>, cs: seq<ClockSample>)
    requires 3 <= |cs| <= |turns| + 1 && s.monoResolution > 0 && s.bootResolution > 0
    ensures
      var rs := RunRecords(s, turns, cs);
      Threshold(rs[0], rs) == EnvMargin(s, cs)
  {
    SpansWritten(s, turns, cs, |cs|);
    hide Spans, MarginOf;
    assert SpansOf(cs)[..|cs|] == SpansOf(cs);
  }

  lemma GoodClocksExactly(s: Session, turns: seq<Read>, cs: seq<ClockSample>)
    requires 3 <= |cs| <= |turns| + 1 && s.monoResolution > 0 && s.bootResolution > 0
    ensures
      var rs := RunRecords(s, turns, cs);
      && AllTyped(rs) && rs != []
      && (GoodClocks(rs, Threshold(rs[0], rs)) <==> ClocksOk(s, cs))
  {
    hide RecordAt, WellTyped, Threshold, EnvMargin, Follows, Measured, OffsetOk, Forward;
    RunIsTyped(s, turns, cs);
    ThresholdWritten(s, turns, cs);
    var rs := RunRecords(s, turns, cs);
    AllOffsetsWritten(s, turns, cs);
    AllFollowWritten(s, turns, cs);
    AllStepsWritten(s, turns, cs, EnvMargin(s, cs));
    StepsExactly(s, cs);
    AllMeasuredWritten(s, turns, cs);
    hide AllOffsets, AllFollow, AllSteps, AllMeasured, RunRecords, AllTyped, StepsOk;
    if forall k | 0 <= k < |cs| - 1 :: Forward(cs[k], cs[k + 1]) {
      forall k | 0 <= k < |cs| ensures cs[0].mono <= cs[k].mono && cs[0].boot <= cs[k].boot {
        ForwardChain(cs, k);
      }
    }
  }

  lemma StepsExactly(s: Session, cs: seq<ClockSample>)
    ensures StepsOk(s, cs) <==> StepsWithin(cs, EnvMargin(s, cs))
  {
    hide RunMargin, EnvMargin, StepsWithin;
    forall margin ensures RunMargin(s, cs, margin) <==> margin == EnvMargin(s, cs) {
      RunMarginExactly(s, cs, margin);
    }
  }

  lemma AllOffsetsWritten(s: Session, turns: seq<Read>, cs: seq<ClockSample>)
    requires 3 <= |cs| <= |turns| + 1 && AllTyped(RunRecords(s, turns, cs))
    ensures AllOffsets(RunRecords(s, turns, cs)) <==> forall k | 0 <= k < |cs| :: -I64_MAX <= RealOffset(cs[k]) <= I64_MAX
  {
    hide RecordAt, WellTyped, OffsetOk, RealOffset;
    var rs := RunRecords(s, turns, cs);
    forall k | 0 <= k < |cs|
      ensures WellTyped(rs[k]) && (OffsetOk(rs[k]) <==> -I64_MAX <= RealOffset(cs[k]) <= I64_MAX)
    {
      OffsetWritten(s, turns, cs, k);
    }
  }

  lemma AllFollowWritten(s: Session, turns: seq<Read>, cs: seq<ClockSample>)
    requires 3 <= |cs| <= |turns| + 1 && AllTyped(RunRecords(s, turns, cs))
    ensures AllFollow(RunRecords(s, turns, cs)) <==> forall k | 0 <= k < |cs| - 1 :: Forward(cs[k], cs[k + 1])
  {
    hide RecordAt, WellTyped, Follows, Forward;
    var rs := RunRecords(s, turns, cs);
    forall k | 0 <= k < |cs| - 1
      ensures Follows(rs[k], rs[k + 1]) <==> Forward(cs[k], cs[k + 1])
    {
      FollowsWritten(s, turns, cs, k);
    }
  }

  lemma AllStepsWritten(s: Session, turns: seq<Read>, cs: seq<ClockSample>, margin: int)
    requires 3 <= |cs| <= |turns| + 1 && AllTyped(RunRecords(s, turns, cs))
    ensures AllSteps(RunRecords(s, turns, cs), margin) <==>
      StepsWithin(cs, margin)
  {
    var rs := RunRecords(s, turns, cs);
    hide RecordAt, WellTyped;
    forall k | 0 <= k < |cs| ensures WellTyped(rs[k]) && HasClocks(rs[k]) && OffsetOf(rs[k]) == RealOffset(cs[k]) {
      RecordIsTyped(s, turns, cs, k);
    }
  }

  lemma AllMeasuredWritten(s: Session, turns: seq<Read>, cs: seq<ClockSample>)
    requires 3 <= |cs| <= |turns| + 1 && AllTyped(RunRecords(s, turns, cs))
    ensures AllMeasured(RunRecords(s, turns, cs)) <==>
      && (forall k | 0 <= k < |cs| :: 0 <= RealOffset(cs[k]) <= I64_MAX)
      && (forall k | 0 <= k < |cs| :: cs[0].mono <= cs[k].mono && cs[0].boot <= cs[k].boot)
  {
    hide RecordAt, WellTyped, Measured, RealOffset;
    var rs := RunRecords(s, turns, cs);
    forall k | 1 <= k < |cs|
      ensures WellTyped(rs[k]) && WellTyped(rs[0])
      ensures Measured(rs[k], rs[0]) <==>
        && cs[0].mono <= cs[k].mono && cs[0].boot <= cs[k].boot
        && 0 <= RealOffset(cs[0]) <= I64_MAX && 0 <= RealOffset(cs[k]) <= I64_MAX
    {
      MeasuredWritten(s, turns, cs, k);
    }
    if AllMeasured(rs) {
      assert Measured(rs[1], rs[0]);
      forall k | 0 <= k < |cs|
        ensures 0 <= RealOffset(cs[k]) <= I64_MAX && cs[0].mono <= cs[k].mono && cs[0].boot <= cs[k].boot
      {
        if k > 0 {
          assert Measured(rs[k], rs[0]);
        }
      }
    }
  }

  // ----- the boot and cgroup conditions -----

  /** A point keeps the verdict affirmative as far as boot identity and cgroup go. */
  predicate PointOk(r: Record, m: Record) {
    && BootOk(r, m) && !BootUnreadable(r)
    && Readable(r) && !EqualsInt(r.frozen, 1) && !EqualsInt(r.populated, 0)
  }

  lemma PointWritten(s: Session, turns: seq<Read>, cs: seq<ClockSample>, k: nat)
    requires 3 <= |cs| <= |turns| + 1 && 0 < k < |cs| && ReadBootId(s.first).Some?
    ensures PointOk(RecordAt(s, turns, cs, k), RecordAt(s, turns, cs, 0)) <==> Attended(s, turns[k - 1])
  {
  }

  lemma BoundWritten(s: Session, turns: seq<Read>, cs: seq<ClockSample>)
    requires 3 <= |cs| <= |turns| + 1 && Launched(s)
    ensures
      var m := RecordAt(s, turns, cs, 0);
      && (!BindingUnknown(m) && !BaselineUnknown(m) <==> Bound(s))
      && (Configured(m) <==> s.monoResolution > 0 && s.bootResolution > 0)
  {
  }

  lemma AttendedExactly(rs: seq<Record>)
    requires rs != [] && TimelineOf(rs) == rs && PointsOf(rs) == rs[1..] && MetadataOf(rs) == rs[0]
    ensures AllAttended(rs, rs[0]) && !ContextUnknown(rs) <==>
      && !BindingUnknown(rs[0]) && !BaselineUnknown(rs[0])
      && forall k | 1 <= k < |rs| :: PointOk(rs[k], rs[0])
  {
    hide BindingUnknown, BaselineUnknown, BootOk, BootUnreadable, Readable, EqualsInt, OfKind, TimelineOf, PointsOf, MetadataOf;
    var ps := rs[1..];
    assert forall k | 0 <= k < |ps| :: ps[k] == rs[k + 1];
    if AllAttended(rs, rs[0]) && !ContextUnknown(rs) {
      forall k | 1 <= k < |rs| ensures PointOk(rs[k], rs[0]) {
        assert !BootUnreadable(ps[k - 1]) && Readable(ps[k - 1]);
      }
    }
  }

  lemma RunIsAnalyzed(s: Session, turns: seq<Read>, cs: seq<ClockSample>)
    requires 3 <= |cs| <= |turns| + 1
    ensures AnalyzeResult(RunRecords(s, turns, cs), []).Ok?
  {
    hide OfKind, AnalyzeResult, RecordAt, TimelineOf, PointsOf, MetadataOf;
    RunArrangement(s, turns, cs);
    RecordIsTyped(s, turns, cs, 0);
    RaisesExactly(RunRecords(s, turns, cs), []);
  }

  /** A run's records are a good timeline up to these four conditions. */
  lemma GoodRunExactly(s: Session, turns: seq<Read>, cs: seq<ClockSample>)
    requires 3 <= |cs| <= |turns| + 1
    ensures
      var rs := RunRecords(s, turns, cs);
      && AllTyped(rs) && rs != [] && TimelineOf(rs) == rs
      && (GoodTimeline(rs) <==>
            |cs| >= 4 && Configured(rs[0]) && GoodClocks(rs, Threshold(rs[0], rs)) && AllAttended(rs, rs[0]))
  {
    hide RecordAt, GoodClocks, AllAttended, Threshold, TimelineOf, PointsOf, MetadataOf, OfKind, Arranged, AllTyped, Configured,
      EndOf;
    RunArrangement(s, turns, cs);
    RunIsTyped(s, turns, cs);
    EndIsCompleted(s, turns, cs);
    assert RunRecords(s, turns, cs)[|cs| - 1] == RecordAt(s, turns, cs, |cs| - 1);
  }

  /** The conditions in terms of the environment. */
  lemma GoodRunAttendedExactly(s: Session, turns: seq<Read>, cs: seq<ClockSample>)
    requires Launched(s) && 3 <= |cs| <= |turns| + 1
    ensures
      var rs := RunRecords(s, turns, cs);
      GoodTimeline(rs) && !ContextUnknown(rs) <==> EnvironmentOk(s, turns, cs)
  {
    hide RecordAt, GoodClocks, AllAttended, ContextUnknown, Threshold, TimelineOf, PointsOf, MetadataOf, OfKind, Arranged,
      AllTyped, Configured, ClocksOk, Bound, Attended, BindingUnknown, BaselineUnknown, PointOk, EndOf, GoodTimeline, Launched;
    var rs := RunRecords(s, turns, cs);
    GoodRunExactly(s, turns, cs);
    RunArrangement(s, turns, cs);
    AttendedExactly(rs);
    BoundWritten(s, turns, cs);
    if s.monoResolution > 0 && s.bootResolution > 0 {
      GoodClocksExactly(s, turns, cs);
    }
    if Bound(s) {
      BootIdIsBound(s);
      forall k | 1 <= k < |cs| ensures PointOk(rs[k], rs[0]) <==> Attended(s, turns[k - 1]) {
        PointWritten(s, turns, cs, k);
      }
      AllPointsOk(s, turns, cs);
    }
  }

  /**
   A run is affirmed exactly when it took two samples, its clocks never went back or strayed past
   the limits, and its boot id and thawed, populated cgroup were read throughout; then no error is
   reported, and a suspend exactly when some offset exceeds the first by more than the margin, which is
   counted from the samples' own read spans.
   */
  lemma RunAffirmedExactly(s: Session, turns: seq<Read>, cs: seq<ClockSample>)
    requires Launched(s) && IsRun(s, turns, cs)
    ensures AnalyzeResult(RunRecords(s, turns, cs), []).Ok?
    ensures
      var report := AnalyzeResult(RunRecords(s, turns, cs), []).value;
      && (Affirmative(report.status) <==> EnvironmentOk(s, turns, cs))
      && (EnvironmentOk(s, turns, cs) ==>
            && report.errors == []
            && (report.status == SUSPEND_OBSERVED <==>
                  exists margin :: RunMargin(s, cs, margin) && RisesAbove(cs, margin)))
  {
    hide AnalyzeResult, RecordAt, Clean, ContextUnknown, GoodTimeline, EnvironmentOk, Launched, SampleOf, Leaves, EnvMargin,
      SuspendObserved, RunMargin, RisesAbove;
    forall margin ensures RunMargin(s, cs, margin) <==> margin == EnvMargin(s, cs) {
      RunMarginExactly(s, cs, margin);
    }
    var rs := RunRecords(s, turns, cs);
    RunIsAnalyzed(s, turns, cs);
    AffirmativeExactly(rs, []);
    CleanExactly(rs);
    GoodRunAttendedExactly(s, turns, cs);
    StatusIsSuspend(rs);
    if EnvironmentOk(s, turns, cs) {
      EnvironmentHasResolutions(s, turns, cs);
      SuspendWritten(s, turns, cs);
    }
  }

  lemma EnvironmentHasResolutions(s: Session, turns: seq<Read>, cs: seq<ClockSample>)
    requires |cs| <= |turns| + 1 && EnvironmentOk(s, turns, cs)
    ensures s.monoResolution > 0 && s.bootResolution > 0
  {
  }

  lemma StatusIsSuspend(rs: seq<Record>)
    requires AnalyzeResult(rs, []).Ok?
    ensures
      var status := AnalyzeResult(rs, []).value.status;
      Affirmative(status) ==> (status == SUSPEND_OBSERVED <==> SuspendObserved(rs))
  {
    hide SuspendObserved, ContextUnknown, CoverageInvalid, ClockErrors, EarlyErrors, LateErrors, Warnings, Gaps, Offsets,
      Threshold, MaxChange, CountReadable;
  }

  lemma SuspendWritten(s: Session, turns: seq<Read>, cs: seq<ClockSample>)
    requires 3 <= |cs| <= |turns| + 1 && s.monoResolution > 0 && s.bootResolution > 0
    ensures SuspendObserved(RunRecords(s, turns, cs)) <==> RisesAbove(cs, EnvMargin(s, cs))
  {
    hide RecordAt, Threshold, TimelineOf, PointsOf, MetadataOf, OfKind, EndOf, Arranged, EnvMargin, Offsets, WellTyped;
    var rs := RunRecords(s, turns, cs);
    RunArrangement(s, turns, cs);
    ThresholdWritten(s, turns, cs);
    forall k | 0 <= k < |cs| ensures HasClocks(rs[k]) && OffsetOf(rs[k]) == RealOffset(cs[k]) {
      RecordIsTyped(s, turns, cs, k);
    }
    OffsetsExactly(rs, |rs|);
    var offsets := Offsets(rs, |rs|);
    assert MaxOf(offsets) in offsets && forall x | x in offsets :: x <= MaxOf(offsets);
    if k :| 0 <= k < |cs| && RealOffset(cs[k]) - RealOffset(cs[0]) > EnvMargin(s, cs) {
      assert offsets[k] in offsets;
    }
  }

  lemma BootIdIsBound(s: Session)
    requires Bound(s)
    ensures ReadBootId(s.first).Some?
  {
  }

  lemma AllPointsOk(s: Session, turns: seq<Read>, cs: seq<ClockSample>)
    requires 3 <= |cs| <= |turns| + 1
    requires
      var rs := RunRecords(s, turns, cs);
      forall k | 1 <= k < |cs| :: PointOk(rs[k], rs[0]) <==> Attended(s, turns[k - 1])
    ensures
      var rs := RunRecords(s, turns, cs);
      (forall k | 1 <= k < |cs| :: PointOk(rs[k], rs[0])) <==> forall k | 0 <= k < |cs| - 1 :: Attended(s, turns[k])
  {
    hide PointOk, Attended, RecordAt;
    var rs := RunRecords(s, turns, cs);
    if forall k | 1 <= k < |cs| :: PointOk(rs[k], rs[0]) {
      forall k | 0 <= k < |cs| - 1 ensures Attended(s, turns[k]) {
        assert PointOk(rs[k + 1], rs[0]);
      }
    }
  }

  // ----- the pair span of the start itself is not checked -----

  /** A read whose pair takes from `before` to `after`, in milliseconds of its first second. */
  function ReadAt(before: nat, boot: nat, after: nat): Read {
    Read(false, Timespec(0, before * 1_000_000), Timespec(0, boot * 1_000_000), Timespec(0, after * 1_000_000), None,
         CgroupRead("AVAILABLE", 0, 1), Some("boot"))
  }

  const SLOW_SESSION: Session :=
    Session(100, 100, "trial", Some(1), Binding("AVAILABLE", "/trial", 0), 1, 1, ReadAt(0, 100, 200))

  const SLOW_TURNS: seq<Read> := [ReadAt(150, 150, 150), ReadAt(250, 250, 250), ReadAt(300, 300, 300)]

  function QuickSample(before: nat, boot: nat, after: nat): ClockSample
    requires before <= after < 1000 && boot < 1000
  {
    ClockSample(before * 1_000_000 + (after - before) * 500_000, boot * 1_000_000, None, (after - before) * 1_000_000)
  }

  const SLOW_SAMPLES: seq<ClockSample> := [
    QuickSample(0, 100, 200), QuickSample(150, 150, 150), QuickSample(250, 250, 250), QuickSample(300, 300, 300)]

  /** A run whose first pair took 200 ms, twice the limit for every later one, is affirmed. */
  lemma SlowStartIsAffirmed()
    ensures IsRun(SLOW_SESSION, SLOW_TURNS, SLOW_SAMPLES) && SLOW_SAMPLES[0].span > 100_000_000
    ensures Affirms(AnalyzeResult(RunRecords(SLOW_SESSION, SLOW_TURNS, SLOW_SAMPLES), []))
  {
    hide AnalyzeResult, RunRecords, EnvironmentOk, IsRun, EnvMargin, RealOffset;
    SlowIsRun();
    SlowEnvironment();
    assert Launched(SLOW_SESSION);
    hide Launched;
    RunAffirmedExactly(SLOW_SESSION, SLOW_TURNS, SLOW_SAMPLES);
  }

  lemma SlowIsRun()
    ensures IsRun(SLOW_SESSION, SLOW_TURNS, SLOW_SAMPLES)
  {
    hide SampleOf;
    SlowReads();
  }

  lemma SlowSteps()
    ensures StepsOk(SLOW_SESSION, SLOW_SAMPLES)
  {
    hide EnvMargin, RunMargin;
    MarginIsPositive(SLOW_SESSION, SLOW_SAMPLES);
    StepsExactly(SLOW_SESSION, SLOW_SAMPLES);
  }

  lemma SlowClocks()
    ensures ClocksOk(SLOW_SESSION, SLOW_SAMPLES)
  {
    hide StepsOk, ReadAt;
    SlowSteps();
    var cs := SLOW_SAMPLES;
    assert cs[0] == ClockSample(100_000_000, 100_000_000, None, 200_000_000);
    assert cs[1] == ClockSample(150_000_000, 150_000_000, None, 0);
    assert cs[2] == ClockSample(250_000_000, 250_000_000, None, 0);
    assert cs[3] == ClockSample(300_000_000, 300_000_000, None, 0);
    hide QuickSample;
    assert |cs| == 4;
    assert Forward(cs[0], cs[1]) && Forward(cs[1], cs[2]) && Forward(cs[2], cs[3]);
  }

  lemma SlowEnvironment()
    ensures EnvironmentOk(SLOW_SESSION, SLOW_TURNS, SLOW_SAMPLES)
  {
    hide ClocksOk, QuickSample;
    SlowClocks();
    assert forall k | 0 <= k < 3 :: Attended(SLOW_SESSION, SLOW_TURNS[k]);
  }

  lemma MarginIsPositive(s: Session, cs: seq<ClockSample>)
    ensures EnvMargin(s, cs) >= MIN_DETECTION_MARGIN_NS
  {
  }

  lemma SlowReads()
    ensures SampleOf(SLOW_SESSION.first) == Some(SLOW_SAMPLES[0])
    ensures forall k | 0 <= k < 3 :: SampleOf(SLOW_TURNS[k]) == Some(SLOW_SAMPLES[k + 1])
  {
    hide SampleOf, ReadAt, QuickSample;
    QuickRead(0, 100, 200);
    QuickRead(150, 150, 150);
    QuickRead(250, 250, 250);
    QuickRead(300, 300, 300);
  }

  lemma QuickRead(before: nat, boot: nat, after: nat)
    requires before <= after < 1000 && boot < 1000
    ensures SampleOf(ReadAt(before, boot, after)) == Some(QuickSample(before, boot, after))
  {
    hide TimespecToNs, Midpoint;
  }
}
