/**
 What an affirmative verdict of the analyzer means: no error of any kind, the cgroup errors the
 verdict sets aside included, and a timeline whose gaps cover the whole interval.
 */
module ClockVerdict {
  import opened Wrappers
  import opened JsonValues
  import opened ClockRecords
  import opened ClockAnalyzer

  predicate Affirmative(s: Status) {
    s == NO_SUSPEND_OBSERVED || s == SUSPEND_OBSERVED
  }

  predicate Affirms(r: Result<Report, Crash>) {
    r.Ok? && Affirmative(r.value.status)
  }

  // ----- when the analysis raises -----

  /** Null and text cannot be subtracted; a number, a boolean and an absent field can. */
  predicate Unsubtractable(v: JVal) {
    v.Null? || v.Str?
  }

  lemma {:induction false} ElapsedRaisesExactly(ps: seq<Record>, m: Record, baseline: int, k: nat)
    requires k <= |ps|
    ensures ElapsedPass(ps, m, baseline, k).None? <==>
      (Unsubtractable(m.mono) || Unsubtractable(m.boot)) && exists i :: 0 <= i < k && HasClocks(ps[i])
  {
    hide Same, EqualsInt;
    if k > 0 {
      ElapsedRaisesExactly(ps, m, baseline, k - 1);
      if HasClocks(ps[k - 1]) {
        assert exists i :: 0 <= i < k && HasClocks(ps[i]);
      }
    }
  }

  lemma {:induction false} ClocksLeaveOffsets(ts: seq<Record>, k: nat, i: nat)
    requires i < k <= |ts| && HasClocks(ts[i])
    ensures Offsets(ts, k) != []
  {
    if i < k - 1 {
      ClocksLeaveOffsets(ts, k - 1, i);
    }
  }

  /**
   The analysis raises exactly when the one metadata record has null or text for a clock while
   some sample or end record has two integer clocks.
   */
  lemma RaisesExactly(rs: seq<Record>, parse: seq<string>)
    ensures AnalyzeResult(rs, parse).Err? <==>
      && (Unsubtractable(MetadataOf(rs).mono) || Unsubtractable(MetadataOf(rs).boot))
      && exists p :: p in PointsOf(rs) && HasClocks(p)
  {
    var ts, ps := TimelineOf(rs), PointsOf(rs);
    var offsets := Offsets(ts, |ts|);
    ElapsedRaisesExactly(ps, MetadataOf(rs), if offsets == [] then 0 else offsets[0], |ps|);
    hide Offsets, ElapsedPass, OffsetErrors, Threshold, EarlyErrors, LateErrors, Warnings, StatusOf, Gaps, CountReadable,
      MaxChange, HasClocks, Unsubtractable, MetadataOf;
    if i :| 0 <= i < |ps| && HasClocks(ps[i]) {
      var at := |ts| - |ps| + i;
      assert ts[at] == ps[i] && ps[i] in ps;
      ClocksLeaveOffsets(ts, |ts|, at);
    }
  }

  /** A null clock in the metadata raises; an absent one and a float do not. */
  lemma NullClockRaises(metadata: Record, point: Record)
    requires IsKind(metadata, "metadata") && metadata.boot.Int?
    requires IsKind(point, "end") && HasClocks(point)
    ensures AnalyzeResult([metadata.(mono := Null), point], []).Err?
    ensures AnalyzeResult([metadata.(mono := Absent), point], []).Ok?
    ensures AnalyzeResult([metadata.(mono := Real(1.5)), point], []).Ok?
  {
    hide AnalyzeResult, MetadataOf, PointsOf;
    OnePoint(metadata.(mono := Null), point);
    OnePoint(metadata.(mono := Absent), point);
    OnePoint(metadata.(mono := Real(1.5)), point);
    assert point in [point];
    RaisesExactly([metadata.(mono := Null), point], []);
    RaisesExactly([metadata.(mono := Absent), point], []);
    RaisesExactly([metadata.(mono := Real(1.5)), point], []);
  }

  lemma OnePoint(metadata: Record, point: Record)
    requires IsKind(metadata, "metadata") && IsKind(point, "end")
    ensures MetadataOf([metadata, point]) == metadata && PointsOf([metadata, point]) == [point]
  {
    assert "metadata"[0] != "end"[0] && "sample"[0] != "metadata"[0] && "sample"[0] != "end"[0];
    TwoOfKind(metadata, point, "metadata");
    TwoOfKind(metadata, point, "end");
    TwoOfKind(metadata, point, "sample");
  }

  lemma TwoOfKind(a: Record, b: Record, kind: string)
    ensures OfKind([a, b], kind) == (if IsKind(a, kind) then [a] else []) + (if IsKind(b, kind) then [b] else [])
  {
    hide IsKind;
    assert [a, b][..1] == [a] && [a][..0] == [];
    assert OfKind([], kind) == [];
  }

  // ----- where errors come from -----

  /** Neither set aside by the verdict nor the large-regression error. */
  predicate Ordinary(e: Error) {
    !IsCgroupError(e) && !e.OffsetLargeRegression?
  }

  predicate AllOrdinary(es: seq<Error>) {
    forall i | 0 <= i < |es| :: Ordinary(es[i])
  }

  lemma OrdinaryConcat(a: seq<Error>, b: seq<Error>)
    ensures AllOrdinary(a + b) <==> AllOrdinary(a) && AllOrdinary(b)
  {
    hide Ordinary;
    if AllOrdinary(a + b) {
      assert forall i | 0 <= i < |a| :: a[i] == (a + b)[i];
      assert forall i | 0 <= i < |b| :: b[i] == (a + b)[|a| + i];
    }
  }

  lemma {:induction false} OrdinaryFields(rs: seq<Record>, k: nat)
    requires k <= |rs|
    ensures AllOrdinary(FieldPass(rs, k))
  {
    hide FieldErrors, Ordinary;
    if k > 0 {
      OrdinaryFields(rs, k - 1);
      OrdinaryField(rs[k - 1], k);
      hide AllOrdinary;
      OrdinaryConcat(FieldPass(rs, k - 1), FieldErrors(rs[k - 1], k));
    }
  }

  lemma OrdinaryRequired(v: JVal, k: nat, field: Field)
    ensures AllOrdinary(RequiredErrors(v, k, field))
  {
  }

  lemma OrdinaryOptional(v: JVal, k: nat, field: Field, signed: bool)
    ensures AllOrdinary(OptionalErrors(v, k, field, signed))
  {
  }

  lemma OrdinaryField(r: Record, k: nat)
    ensures AllOrdinary(FieldErrors(r, k))
  {
    hide AllOrdinary, RequiredErrors, OptionalErrors;
    var a, b := RequiredErrors(r.sequence, k, SEQUENCE), RequiredErrors(r.mono, k, MONO);
    var c, d := RequiredErrors(r.boot, k, BOOT), RequiredErrors(r.span, k, SPAN);
    var e, f := OptionalErrors(r.offset, k, OFFSET, true), OptionalErrors(r.gap, k, GAP, false);
    var g := OptionalErrors(r.elapsedMono, k, ELAPSED_MONO, false);
    var h := OptionalErrors(r.elapsedBoot, k, ELAPSED_BOOT, false);
    var i, j := OptionalErrors(r.delta, k, DELTA, true), OptionalErrors(r.cpu, k, CPU, false);
    OrdinaryRequired(r.sequence, k, SEQUENCE);
    OrdinaryRequired(r.mono, k, MONO);
    OrdinaryConcat(a, b);
    OrdinaryRequired(r.boot, k, BOOT);
    OrdinaryConcat(a + b, c);
    OrdinaryRequired(r.span, k, SPAN);
    OrdinaryConcat(a + b + c, d);
    OrdinaryOptional(r.offset, k, OFFSET, true);
    OrdinaryConcat(a + b + c + d, e);
    OrdinaryOptional(r.gap, k, GAP, false);
    OrdinaryConcat(a + b + c + d + e, f);
    OrdinaryOptional(r.elapsedMono, k, ELAPSED_MONO, false);
    OrdinaryConcat(a + b + c + d + e + f, g);
    OrdinaryOptional(r.elapsedBoot, k, ELAPSED_BOOT, false);
    OrdinaryConcat(a + b + c + d + e + f + g, h);
    OrdinaryOptional(r.delta, k, DELTA, true);
    OrdinaryConcat(a + b + c + d + e + f + g + h, i);
    OrdinaryOptional(r.cpu, k, CPU, false);
    OrdinaryConcat(a + b + c + d + e + f + g + h + i, j);
  }

  lemma {:induction false} OrdinaryPairs(ts: seq<Record>, k: nat)
    requires k == 0 || k < |ts|
    ensures AllOrdinary(PairPass(ts, k))
  {
    if k > 0 {
      OrdinaryPairs(ts, k - 1);
      OrdinaryPair(ts[k - 1], ts[k]);
      hide AllOrdinary, PairErrors;
      OrdinaryConcat(PairPass(ts, k - 1), PairErrors(ts[k - 1], ts[k]));
    }
  }

  lemma OrdinaryPair(left: Record, right: Record)
    ensures AllOrdinary(PairErrors(left, right))
  {
    assert forall e | e in PairErrors(left, right) ::
      e.MonotonicRegression? || e.BoottimeRegression? || e.GapFieldMismatch? || e.PairSpanExceeded?;
  }

  lemma {:induction false} OrdinaryRecords(ts: seq<Record>, k: nat)
    requires k <= |ts|
    ensures AllOrdinary(RecordPass(ts, k))
  {
    if k > 0 {
      OrdinaryRecords(ts, k - 1);
      assert AllOrdinary(RecordErrors(ts[k - 1])) by {
        hide EqualsInt;
      }
      hide AllOrdinary, RecordErrors;
      OrdinaryConcat(RecordPass(ts, k - 1), RecordErrors(ts[k - 1]));
    }
  }

  lemma {:induction false} OrdinarySteps(offsets: seq<int>, threshold: int, k: nat)
    requires k == 0 || k < |offsets|
    ensures AllOrdinary(StepPass(offsets, threshold, k))
  {
    if k > 0 {
      OrdinarySteps(offsets, threshold, k - 1);
    }
  }

  lemma {:induction false} OrdinaryElapsed(ps: seq<Record>, m: Record, baseline: int, k: nat)
    requires k <= |ps|
    ensures ElapsedPass(ps, m, baseline, k).Some? ==> AllOrdinary(ElapsedPass(ps, m, baseline, k).value)
  {
    if k > 0 {
      OrdinaryElapsed(ps, m, baseline, k - 1);
      hide Same, EqualsInt, Elapsed;
      var step := ElapsedErrors(ps[k - 1], m, baseline);
      assert step.Some? ==> AllOrdinary(step.value);
    }
  }

  lemma {:induction false} OrdinaryBoots(ps: seq<Record>, m: Record, k: nat)
    requires k <= |ps|
    ensures AllOrdinary(BootPass(ps, m, k))
  {
    if k > 0 {
      OrdinaryBoots(ps, m, k - 1);
    }
  }

  /** The largest change is measured from the first offset, so it is never negative. */
  lemma MaxChangeIsNatural(offsets: seq<int>)
    requires offsets != []
    ensures MaxChange(offsets).value >= 0
  {
    assert offsets[0] in offsets;
  }

  lemma OrdinaryOffsets(offsets: seq<int>, threshold: int)
    requires threshold >= 0
    ensures AllOrdinary(OffsetErrors(offsets, threshold))
  {
    OrdinarySteps(offsets, threshold, if offsets == [] then 0 else |offsets| - 1);
    if offsets != [] {
      MaxChangeIsNatural(offsets);
    }
  }

  // ----- a clean analysis -----

  function PairCount(ts: seq<Record>): nat {
    if ts == [] then 0 else |ts| - 1
  }

  /** The errors other than the caller's parse errors. */
  predicate Clean(rs: seq<Record>)
    requires rs != []
  {
    var ts, ps := TimelineOf(rs), PointsOf(rs);
    && FieldPass(rs, |rs|) == [] && SequenceErrors(rs) == [] && StructureErrors(rs) == []
    && PairPass(ts, PairCount(ts)) == [] && RecordPass(ts, |ts|) == [] && SettingErrors(rs) == []
    && ClockErrors(rs) == Some([])
    && EndCountErrors(rs) == [] && BootPass(ps, MetadataOf(rs), |ps|) == [] && CountReadable(ps, |ps|) == |ps|
  }

  function OwnErrors(rs: seq<Record>): seq<Error>
    requires rs != []
  {
    var ts := TimelineOf(rs);
    FieldPass(rs, |rs|) + SequenceErrors(rs) + StructureErrors(rs) + PairPass(ts, PairCount(ts)) + RecordPass(ts, |ts|)
      + SettingErrors(rs)
  }

  lemma EarlyAreParseAndOwn(rs: seq<Record>, parse: seq<string>)
    requires rs != []
    ensures EarlyErrors(rs, parse) == ParseErrors(parse) + OwnErrors(rs)
  {
    hide FieldPass, SequenceErrors, StructureErrors, PairPass, RecordPass, SettingErrors, TimelineOf, ParseErrors;
  }

  lemma OwnAreOrdinary(rs: seq<Record>)
    requires rs != []
    ensures AllOrdinary(OwnErrors(rs))
  {
    var ts := TimelineOf(rs);
    var a, b, c := FieldPass(rs, |rs|), SequenceErrors(rs), StructureErrors(rs);
    var d, e, f := PairPass(ts, PairCount(ts)), RecordPass(ts, |ts|), SettingErrors(rs);
    OrdinaryFields(rs, |rs|);
    OrdinaryPairs(ts, PairCount(ts));
    OrdinaryRecords(ts, |ts|);
    SmallOrdinary(rs);
    hide AllOrdinary, FieldPass, SequenceErrors, StructureErrors, PairPass, RecordPass, SettingErrors, TimelineOf;
    OrdinaryConcat(a, b);
    OrdinaryConcat(a + b, c);
    OrdinaryConcat(a + b + c, d);
    OrdinaryConcat(a + b + c + d, e);
    OrdinaryConcat(a + b + c + d + e, f);
  }

  lemma OrdinaryWhen(c: bool, e: Error)
    requires Ordinary(e)
    ensures AllOrdinary(When(c, e))
  {
    hide Ordinary;
  }

  lemma SmallOrdinary(rs: seq<Record>)
    requires rs != []
    ensures AllOrdinary(SequenceErrors(rs)) && AllOrdinary(StructureErrors(rs)) && AllOrdinary(SettingErrors(rs))
    ensures AllOrdinary(EndCountErrors(rs))
  {
    SequenceOrdinary(rs);
    StructureOrdinary(rs);
    SettingOrdinary(rs);
    hide SequenceErrors, StructureErrors, SettingErrors, MetadataOf, EndOf, OfKind;
  }

  lemma SequenceOrdinary(rs: seq<Record>)
    ensures AllOrdinary(SequenceErrors(rs))
  {
    hide IntSequences, Contiguous;
    assert forall e | e in SequenceErrors(rs) ::
      e.SequenceNonInteger? || e.SequenceNotContiguous? || e.DuplicateSequence? || e.SequenceRegression?;
  }

  lemma StructureOrdinary(rs: seq<Record>)
    requires rs != []
    ensures AllOrdinary(StructureErrors(rs))
  {
    hide OfKind, OneTrial, EndOf, IsKind, AllOrdinary, When;
    OrdinaryWhen(!OneTrial(rs), TrialIdMismatch);
    OrdinaryWhen(|OfKind(rs, "metadata")| != 1, MetadataCount);
    OrdinaryWhen(|OfKind(rs, "end")| != 1, EndCount);
    OrdinaryWhen(!IsKind(rs[0], "metadata"), MetadataNotFirst);
    OrdinaryWhen(!IsKind(rs[|rs| - 1], "end"), EndNotLast);
    OrdinaryWhen(EndOf(rs).Some? && EndOf(rs).value.termination != Str("completed"), EndNotCompleted);
    var a, b := When(!OneTrial(rs), TrialIdMismatch), When(|OfKind(rs, "metadata")| != 1, MetadataCount);
    var c, d := When(|OfKind(rs, "end")| != 1, EndCount), When(!IsKind(rs[0], "metadata"), MetadataNotFirst);
    var e := When(!IsKind(rs[|rs| - 1], "end"), EndNotLast);
    var f := When(EndOf(rs).Some? && EndOf(rs).value.termination != Str("completed"), EndNotCompleted);
    assert StructureErrors(rs) == a + b + c + d + e + f;
    OrdinaryConcat(a, b);
    OrdinaryConcat(a + b, c);
    OrdinaryConcat(a + b + c, d);
    OrdinaryConcat(a + b + c + d, e);
    OrdinaryConcat(a + b + c + d + e, f);
  }

  lemma SettingOrdinary(rs: seq<Record>)
    ensures AllOrdinary(SettingErrors(rs))
  {
    hide OfKind, GoodResolution, MetadataOf;
    assert forall e | e in SettingErrors(rs) :: e.InsufficientSamples? || e.IntervalOutside? || e.ResolutionInvalid?;
  }

  lemma ClockAreOrdinary(rs: seq<Record>)
    requires ClockErrors(rs).Some?
    ensures AllOrdinary(ClockErrors(rs).value)
  {
    hide Offsets, Threshold, OffsetErrors, ElapsedPass, AllOrdinary, MetadataOf, PointsOf, TimelineOf;
    var ts := TimelineOf(rs);
    var offsets := Offsets(ts, |ts|);
    var threshold := Threshold(MetadataOf(rs), ts);
    ThresholdIsPositive(MetadataOf(rs), ts);
    OrdinaryOffsets(offsets, threshold);
    if offsets != [] {
      OrdinaryElapsed(PointsOf(rs), MetadataOf(rs), offsets[0], |PointsOf(rs)|);
      OrdinaryConcat(OffsetErrors(offsets, threshold), ElapsedPass(PointsOf(rs), MetadataOf(rs), offsets[0], |PointsOf(rs)|).value);
    }
  }

  lemma ThresholdIsPositive(m: Record, ts: seq<Record>)
    ensures Threshold(m, ts) >= MIN_DETECTION_MARGIN_NS
  {
  }

  lemma NotCoverage(a: seq<Error>, b: seq<Error>)
    ensures CoverageInvalid(a + b) <==> CoverageInvalid(a) || CoverageInvalid(b)
  {
    hide IsCgroupError;
    if CoverageInvalid(a) {
      var e :| e in a && !IsCgroupError(e);
      assert e in a + b;
    }
    if CoverageInvalid(b) {
      var e :| e in b && !IsCgroupError(e);
      assert e in a + b;
    }
  }

  lemma OrdinaryInvalidates(es: seq<Error>)
    requires AllOrdinary(es)
    ensures CoverageInvalid(es) <==> es != []
    ensures OffsetLargeRegression !in es
  {
    if es != [] {
      assert es[0] in es && Ordinary(es[0]);
    }
  }

  /** Parse errors the verdict sets aside: the parser's own never look like this. */
  predicate SetAside(parse: seq<string>) {
    forall i | 0 <= i < |parse| :: "CGROUP_" <= parse[i]
  }

  lemma ParseInvalidates(parse: seq<string>)
    ensures CoverageInvalid(ParseErrors(parse)) <==> !SetAside(parse)
    ensures OffsetLargeRegression !in ParseErrors(parse)
  {
    var es := ParseErrors(parse);
    if !SetAside(parse) {
      var i :| 0 <= i < |parse| && !("CGROUP_" <= parse[i]);
      assert es[i] in es && es[i] == Parse(parse[i]);
    }
  }

  /** The context is known only when every point's cgroup was read. */
  lemma KnownContextIsReadable(rs: seq<Record>)
    requires !ContextUnknown(rs)
    ensures CountReadable(PointsOf(rs), |PointsOf(rs)|) == |PointsOf(rs)|
  {
    hide Readable, BootUnknown, SomeFrozen, SomeNotPopulated, PointsOf, MetadataOf, BindingUnknown;
  }

  lemma LateErrorsSplit(rs: seq<Record>)
    ensures
      var ps := PointsOf(rs);
      var plain := EndCountErrors(rs) + BootPass(ps, MetadataOf(rs), |ps|);
      && LateErrors(rs) == plain + When(CountReadable(ps, |ps|) < |ps|, CgroupIncomplete)
      && (rs != [] ==> AllOrdinary(plain))
      && (CoverageInvalid(LateErrors(rs)) <==> CoverageInvalid(plain))
      && OffsetLargeRegression !in When(CountReadable(ps, |ps|) < |ps|, CgroupIncomplete)
  {
    var ps := PointsOf(rs);
    if rs != [] {
      SmallOrdinary(rs);
    }
    OrdinaryBoots(ps, MetadataOf(rs), |ps|);
    hide AllOrdinary, EndCountErrors, BootPass, CountReadable, PointsOf, MetadataOf;
    OrdinaryConcat(EndCountErrors(rs), BootPass(ps, MetadataOf(rs), |ps|));
    NotCoverage(EndCountErrors(rs) + BootPass(ps, MetadataOf(rs), |ps|), When(CountReadable(ps, |ps|) < |ps|, CgroupIncomplete));
  }

  /**
   The analysis returns an affirmative verdict exactly when the records leave no error of any kind,
   the caller's parse errors are all set aside, and the cgroup and boot context is known, thawed and populated.
   */
  lemma AffirmativeExactly(rs: seq<Record>, parse: seq<string>)
    ensures Affirms(AnalyzeResult(rs, parse)) <==> rs != [] && SetAside(parse) && !ContextUnknown(rs) && Clean(rs)
    ensures Affirms(AnalyzeResult(rs, parse)) ==> AnalyzeResult(rs, parse).value.errors == ParseErrors(parse)
  {
    hide Clean, OwnErrors, ClockErrors, LateErrors, EarlyErrors, ContextUnknown, CoverageInvalid, SetAside, ParseErrors,
      Warnings, SuspendObserved, Threshold, MaxChange, Offsets, Gaps, CountReadable;
    if rs != [] {
      CleanNeverRaises(rs);
      if ClockErrors(rs).Some? {
        ErrorsInParts(rs, parse);
      }
    }
  }

  lemma CleanNeverRaises(rs: seq<Record>)
    requires rs != []
    ensures Clean(rs) ==> ClockErrors(rs).Some?
  {
    hide FieldPass, SequenceErrors, StructureErrors, PairPass, RecordPass, SettingErrors, ClockErrors, EndCountErrors,
      BootPass, CountReadable, TimelineOf, PointsOf, MetadataOf;
  }

  /** Ordinary errors count one by one; a trailing cgroup error does not. */
  lemma Combine(parse: seq<Error>, own: seq<Error>, clock: seq<Error>, plain: seq<Error>, tail: seq<Error>)
    requires AllOrdinary(own) && AllOrdinary(clock) && AllOrdinary(plain)
    requires tail == [] || tail == [CgroupIncomplete]
    requires OffsetLargeRegression !in parse
    ensures
      var all := parse + own + clock + (plain + tail);
      && (CoverageInvalid(all) <==> CoverageInvalid(parse) || own != [] || clock != [] || plain != [])
      && OffsetLargeRegression !in all
      && (own == [] && clock == [] && plain == [] && tail == [] ==> all == parse)
  {
    OrdinaryInvalidates(own);
    OrdinaryInvalidates(clock);
    OrdinaryInvalidates(plain);
    assert !CoverageInvalid(tail) && OffsetLargeRegression !in tail;
    hide AllOrdinary, CoverageInvalid;
    NotCoverage(plain, tail);
    NotCoverage(parse, own);
    NotCoverage(parse + own, clock);
    NotCoverage(parse + own + clock, plain + tail);
  }

  /** The whole error list, part by part. */
  lemma ErrorsInParts(rs: seq<Record>, parse: seq<string>)
    requires rs != [] && ClockErrors(rs).Some?
    ensures
      var errors := EarlyErrors(rs, parse) + ClockErrors(rs).value + LateErrors(rs);
      && (!CoverageInvalid(errors) && !ContextUnknown(rs) <==> SetAside(parse) && Clean(rs) && !ContextUnknown(rs))
      && (!CoverageInvalid(errors) && !ContextUnknown(rs) ==> errors == ParseErrors(parse))
      && OffsetLargeRegression !in errors
  {
    var ps := PointsOf(rs);
    var own, clock, plain := OwnErrors(rs), ClockErrors(rs).value, EndCountErrors(rs) + BootPass(ps, MetadataOf(rs), |ps|);
    EarlyAreParseAndOwn(rs, parse);
    OwnAreOrdinary(rs);
    ClockAreOrdinary(rs);
    LateErrorsSplit(rs);
    ParseInvalidates(parse);
    CleanInParts(rs);
    if !ContextUnknown(rs) {
      KnownContextIsReadable(rs);
    }
    hide AllOrdinary, CoverageInvalid, ContextUnknown, SetAside, ParseErrors, ClockErrors, EarlyErrors, OwnErrors, Clean,
      EndCountErrors, BootPass, CountReadable, TimelineOf, PointsOf, MetadataOf, LateErrors;
    Combine(ParseErrors(parse), own, clock, plain, When(CountReadable(ps, |ps|) < |ps|, CgroupIncomplete));
  }

  lemma CleanInParts(rs: seq<Record>)
    requires rs != []
    ensures
      var ps := PointsOf(rs);
      Clean(rs) <==>
        && OwnErrors(rs) == [] && ClockErrors(rs) == Some([])
        && EndCountErrors(rs) + BootPass(ps, MetadataOf(rs), |ps|) == [] && CountReadable(ps, |ps|) == |ps|
  {
    hide FieldPass, SequenceErrors, StructureErrors, PairPass, RecordPass, SettingErrors, ClockErrors, EndCountErrors,
      BootPass, CountReadable, TimelineOf, PointsOf, MetadataOf;
  }

  /** The check for a large regression of the offset can never report. */
  lemma LargeRegressionNeverFires(rs: seq<Record>, parse: seq<string>)
    ensures AnalyzeResult(rs, parse).Ok? ==> OffsetLargeRegression !in AnalyzeResult(rs, parse).value.errors
  {
    if rs != [] && ClockErrors(rs).None? {
    } else if rs != [] {
      ErrorsInParts(rs, parse);
      hide Clean, ClockErrors, LateErrors, EarlyErrors, ContextUnknown, CoverageInvalid, SetAside, ParseErrors,
        Warnings, SuspendObserved, Threshold, MaxChange, Offsets, Gaps, CountReadable;
    } else {
      ParseInvalidates(parse);
    }
  }
}
