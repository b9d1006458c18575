/** The analyzer's loops, each appending to the running error list exactly its pass. */
module ClockPasses {
  import opened Wrappers
  import opened JsonValues
  import opened ClockRecords
  import opened ClockAnalyzer

  method CheckFields(rs: seq<Record>, found: seq<Error>) returns (errors: seq<Error>)
    ensures errors == found + FieldPass(rs, |rs|)
  {
    hide FieldErrors;
    errors := found;
    for i := 0 to |rs|
      invariant errors == found + FieldPass(rs, i)
    {
      errors := errors + FieldErrors(rs[i], i + 1);
    }
  }

  method CheckPairs(ts: seq<Record>, found: seq<Error>) returns (errors: seq<Error>)
    ensures errors == found + PairPass(ts, if ts == [] then 0 else |ts| - 1)
  {
    hide PairErrors;
    errors := found;
    var i := 0;
    while i + 1 < |ts|
      invariant i == 0 || i < |ts|
      invariant errors == found + PairPass(ts, i)
    {
      errors := errors + PairErrors(ts[i], ts[i + 1]);
      i := i + 1;
    }
  }

  method CheckRecord(r: Record) returns (errors: seq<Error>, offsets: seq<int>, gaps: seq<int>)
    ensures errors == RecordErrors(r)
    ensures offsets == if HasClocks(r) then [OffsetOf(r)] else []
    ensures gaps == if IsPoint(r) && GoodGap(r) then [r.gap.n] else []
  {
    hide EqualsInt;
    errors, offsets, gaps := [], [], [];
    if HasClocks(r) {
      var expected := r.boot.n - r.mono.n;
      if !EqualsInt(r.offset, expected) {
        errors := errors + [OffsetFieldMismatch];
      }
      offsets := offsets + [expected];
    }
    if IsPoint(r) {
      if !GoodGap(r) {
        errors := errors + [GapInvalid];
      } else {
        gaps := gaps + [r.gap.n];
        if r.gap.n > MAX_GAP_NS {
          errors := errors + [GapExceeded];
        }
      }
    }
  }

  method CheckTimeline(ts: seq<Record>, found: seq<Error>)
    returns (errors: seq<Error>, offsets: seq<int>, gaps: seq<int>)
    ensures errors == found + RecordPass(ts, |ts|)
    ensures offsets == Offsets(ts, |ts|) && gaps == Gaps(ts, |ts|)
  {
    hide RecordErrors, OffsetOf, HasClocks, IsPoint, GoodGap;
    errors, offsets, gaps := found, [], [];
    for i := 0 to |ts|
      invariant errors == found + RecordPass(ts, i)
      invariant offsets == Offsets(ts, i) && gaps == Gaps(ts, i)
    {
      var e, o, g := CheckRecord(ts[i]);
      errors, offsets, gaps := errors + e, offsets + o, gaps + g;
    }
  }

  method CheckSteps(offsets: seq<int>, threshold: int, found: seq<Error>) returns (errors: seq<Error>)
    ensures errors == found + OffsetErrors(offsets, threshold)
  {
    errors := found;
    var i := 0;
    while i + 1 < |offsets|
      invariant i == 0 || i < |offsets|
      invariant errors == found + StepPass(offsets, threshold, i)
    {
      if offsets[i + 1] - offsets[i] < -threshold {
        errors := errors + [OffsetStepRegression];
      }
      i := i + 1;
    }
    var change := MaxChange(offsets);
    if change.Some? && change.value < -threshold {
      errors := errors + [OffsetLargeRegression];
    }
  }

  /** The elapsed checks, or nothing when one of the subtractions raises. */
  method CheckElapsed(ps: seq<Record>, m: Record, baseline: int, found: seq<Error>) returns (r: Option<seq<Error>>)
    ensures
      var pass := ElapsedPass(ps, m, baseline, |ps|);
      r == if pass.None? then None else Some(found + pass.value)
  {
    hide Same, EqualsInt, Minus;
    var errors := found;
    for i := 0 to |ps|
      invariant ElapsedPass(ps, m, baseline, i).Some? && errors == found + ElapsedPass(ps, m, baseline, i).value
    {
      var step := ElapsedErrors(ps[i], m, baseline);
      if step.None? {
        ElapsedStays(ps, m, baseline, i + 1);
        return None;
      }
      errors := errors + step.value;
    }
    r := Some(errors);
  }

  lemma {:induction false} ElapsedStays(ps: seq<Record>, m: Record, baseline: int, k: nat)
    requires k <= |ps| && ElapsedPass(ps, m, baseline, k).None?
    ensures ElapsedPass(ps, m, baseline, |ps|).None?
    decreases |ps| - k
  {
    hide ElapsedErrors;
    if k < |ps| {
      ElapsedStays(ps, m, baseline, k + 1);
    }
  }

  method CheckBoot(ps: seq<Record>, m: Record, found: seq<Error>) returns (errors: seq<Error>, unknown: bool)
    ensures errors == found + BootPass(ps, m, |ps|)
    ensures unknown == BootUnknown(ps, m)
  {
    errors, unknown := found, BaselineUnknown(m);
    for i := 0 to |ps|
      invariant errors == found + BootPass(ps, m, i)
      invariant unknown == (BaselineUnknown(m) || exists j | 0 <= j < i :: BootUnreadable(ps[j]))
    {
      var r := ps[i];
      if r.bootStatus == Str("MISMATCH") {
        errors := errors + [BootIdChanged];
      } else if r.bootStatus != Str("AVAILABLE") || !r.bootId.Str? {
        unknown := true;
      } else if !IsNone(m.bootId) && r.bootId != m.bootId {
        errors := errors + [BootIdChanged];
      }
    }
  }

  method CheckCgroup(ps: seq<Record>, m: Record)
    returns (unknown: bool, frozen: bool, notPopulated: bool, samples: nat)
    ensures unknown == (BindingUnknown(m) || CgroupReadUnknown(ps, |ps|))
    ensures frozen == SomeFrozen(ps, |ps|) && notPopulated == SomeNotPopulated(ps, |ps|)
    ensures samples == CountReadable(ps, |ps|)
  {
    hide EqualsInt, BindingUnknown;
    unknown, frozen, notPopulated, samples := BindingUnknown(m), false, false, 0;
    for i := 0 to |ps|
      invariant unknown == (BindingUnknown(m) || CgroupReadUnknown(ps, i))
      invariant frozen == SomeFrozen(ps, i) && notPopulated == SomeNotPopulated(ps, i)
      invariant samples == CountReadable(ps, i)
    {
      var r := ps[i];
      CgroupStep(ps, i);
      if r.cgroupStatus != Str("AVAILABLE") {
        unknown := true;
        continue;
      }
      if !IsFlag(r.frozen) || !IsFlag(r.populated) {
        unknown := true;
        continue;
      }
      samples := samples + 1;
      frozen := frozen || EqualsInt(r.frozen, 1);
      notPopulated := notPopulated || EqualsInt(r.populated, 0);
    }
  }

  lemma CgroupStep(ps: seq<Record>, i: nat)
    requires i < |ps|
    ensures CgroupReadUnknown(ps, i + 1) == (CgroupReadUnknown(ps, i) || !Readable(ps[i]))
    ensures SomeFrozen(ps, i + 1) == (SomeFrozen(ps, i) || (Readable(ps[i]) && EqualsInt(ps[i].frozen, 1)))
    ensures SomeNotPopulated(ps, i + 1) == (SomeNotPopulated(ps, i) || (Readable(ps[i]) && EqualsInt(ps[i].populated, 0)))
  {
    hide Readable, EqualsInt;
  }

  /** Some error is not one the verdict sets aside. */
  method HasCoverageError(errors: seq<Error>) returns (r: bool)
    ensures r == CoverageInvalid(errors)
  {
    for i := 0 to |errors|
      invariant forall j | 0 <= j < i :: IsCgroupError(errors[j])
    {
      if !IsCgroupError(errors[i]) {
        return true;
      }
    }
    r := false;
  }

  method EarlyChecks(rs: seq<Record>, parse: seq<string>)
    returns (errors: seq<Error>, offsets: seq<int>, gaps: seq<int>)
    requires rs != []
    ensures errors == EarlyErrors(rs, parse)
    ensures offsets == Offsets(TimelineOf(rs), |TimelineOf(rs)|) && gaps == Gaps(TimelineOf(rs), |TimelineOf(rs)|)
  {
    hide FieldPass, SequenceErrors, StructureErrors, PairPass, RecordPass, SettingErrors, TimelineOf, Offsets, Gaps,
      ParseErrors;
    errors := CheckFields(rs, ParseErrors(parse));
    errors := errors + SequenceErrors(rs) + StructureErrors(rs);
    errors := CheckPairs(TimelineOf(rs), errors);
    errors, offsets, gaps := CheckTimeline(TimelineOf(rs), errors);
    errors := errors + SettingErrors(rs);
  }

  method ClockChecks(rs: seq<Record>, offsets: seq<int>, threshold: int, found: seq<Error>)
    returns (r: Option<seq<Error>>)
    requires rs != [] && offsets == Offsets(TimelineOf(rs), |TimelineOf(rs)|)
    requires threshold == Threshold(MetadataOf(rs), TimelineOf(rs))
    ensures r == if ClockErrors(rs).None? then None else Some(found + ClockErrors(rs).value)
  {
    hide OffsetErrors, ElapsedPass, Offsets, Threshold, TimelineOf, PointsOf, MetadataOf;
    var errors := CheckSteps(offsets, threshold, found);
    if offsets != [] {
      r := CheckElapsed(PointsOf(rs), MetadataOf(rs), offsets[0], errors);
      ghost var pass := ElapsedPass(PointsOf(rs), MetadataOf(rs), offsets[0], |PointsOf(rs)|);
      if pass.Some? {
        ghost var steps := OffsetErrors(offsets, threshold);
        assert found + steps + pass.value == found + (steps + pass.value);
      }
    } else {
      r := Some(errors);
    }
  }

  method LateChecks(rs: seq<Record>, found: seq<Error>)
    returns (errors: seq<Error>, warnings: seq<Warning>, context: bool, samples: nat)
    requires rs != []
    ensures errors == found + LateErrors(rs) && warnings == Warnings(rs) && context == ContextUnknown(rs)
    ensures samples == CountReadable(PointsOf(rs), |PointsOf(rs)|)
  {
    hide BootPass, EndCountErrors, CountReadable, BindingUnknown, CgroupReadUnknown, SomeFrozen, SomeNotPopulated,
      BootUnknown, MetadataOf, PointsOf, CpuRegressed;
    var points, metadata := PointsOf(rs), MetadataOf(rs);
    errors := found + EndCountErrors(rs);
    var bootUnknown;
    errors, bootUnknown := CheckBoot(points, metadata, errors);
    var cgroupUnknown, frozen, notPopulated;
    cgroupUnknown, frozen, notPopulated, samples := CheckCgroup(points, metadata);
    if samples < |points| {
      errors := errors + [CgroupIncomplete];
    }
    warnings := Note(frozen, CgroupFrozen) + Note(notPopulated, CgroupNotPopulated)
      + Note(cgroupUnknown, CgroupUnknown) + Note(bootUnknown, BootIdUnknown) + Note(CpuRegressed(rs), CpuRegression);
    context := cgroupUnknown || frozen || notPopulated || bootUnknown;
  }

  /** The whole analysis is the report the passes define. */
  method Analyze(rs: seq<Record>, parse: seq<string>) returns (r: Result<Report, Crash>)
    ensures r == AnalyzeResult(rs, parse)
  {
    hide EarlyErrors, ClockErrors, LateErrors, Warnings, CountReadable, Offsets, Gaps, Threshold, MaxChange, ContextUnknown,
      MetadataOf, PointsOf, TimelineOf, OfKind, CoverageInvalid;
    if rs == [] {
      return Ok(Report(COVERAGE_INVALID, 0, 0, 0, None, [], if parse == [] then [NoRecords] else ParseErrors(parse), []));
    }
    var errors, offsets, gaps := EarlyChecks(rs, parse);
    var threshold := Threshold(MetadataOf(rs), TimelineOf(rs));
    var change := MaxChange(offsets);
    var clock := ClockChecks(rs, offsets, threshold, errors);
    if clock.None? {
      return Err(TypeError);
    }
    var warnings, context, samples;
    errors, warnings, context, samples := LateChecks(rs, clock.value);
    var coverageInvalid := HasCoverageError(errors);
    var suspendObserved := change.Some? && change.value > threshold;
    var status :=
      if coverageInvalid then COVERAGE_INVALID
      else if context then C2_UNKNOWN
      else if suspendObserved then SUSPEND_OBSERVED
      else NO_SUSPEND_OBSERVED;
    r := Ok(Report(status, |OfKind(rs, "sample")|, samples, threshold, change, gaps, errors, warnings));
  }
}
