/**
 The dual-clock analyzer. Each pass over the records is a function of the records; the method
 runs the passes in the source's order, collecting errors, and ends with the same report.
 */
module ClockAnalyzer {
  import opened Wrappers
  import opened JsonValues
  import opened ClockRecords

  const MAX_GAP_NS: int := 500_000_000
  const MAX_PAIR_SPAN_NS: int := 100_000_000
  const MIN_INTERVAL_MS: int := 100
  const MAX_INTERVAL_MS: int := 200
  const MIN_DETECTION_MARGIN_NS: int := 1_000_000

  datatype Field =
    | SEQUENCE | MONO | BOOT | SPAN
    | OFFSET | GAP | ELAPSED_MONO | ELAPSED_BOOT | DELTA | CPU
    | MONO_RESOLUTION | BOOT_RESOLUTION

  datatype Error =
    | Parse(text: string)
    | Invalid(record: nat, field: Field)
    | Negative(record: nat, field: Field)
    | SequenceNonInteger
    | SequenceNotContiguous
    | DuplicateSequence
    | SequenceRegression
    | TrialIdMismatch
    | MetadataCount
    | EndCount
    | MetadataNotFirst
    | EndNotLast
    | EndNotCompleted
    | MonotonicRegression
    | BoottimeRegression
    | GapFieldMismatch
    | PairSpanExceeded
    | OffsetFieldMismatch
    | GapInvalid
    | GapExceeded
    | InsufficientSamples
    | IntervalOutside
    | ResolutionInvalid(field: Field)
    | OffsetStepRegression
    | OffsetLargeRegression
    | ElapsedMonoMismatch
    | ElapsedBootMismatch
    | DeltaMismatch
    | SampleCountMismatch
    | BootIdChanged
    | CgroupIncomplete
    | NoRecords

  datatype Warning = CgroupFrozen | CgroupNotPopulated | CgroupUnknown | BootIdUnknown | CpuRegression

  datatype Status = NO_SUSPEND_OBSERVED | SUSPEND_OBSERVED | COVERAGE_INVALID | C2_UNKNOWN

  datatype Report = Report(
    status: Status,
    sampleCount: nat,
    cgroupSamples: nat,
    threshold: int,
    maxOffsetChange: Option<int>,
    gaps: seq<int>,
    errors: seq<Error>,
    warnings: seq<Warning>)

  /** A null or text clock in the metadata makes a subtraction raise. */
  datatype Crash = TypeError

  function When(c: bool, e: Error): seq<Error> {
    if c then [e] else []
  }

  // ----- integer fields -----

  function RequiredErrors(v: JVal, record: nat, field: Field): seq<Error> {
    When(!v.Int? || v.n < 0, Invalid(record, field))
  }

  function OptionalErrors(v: JVal, record: nat, field: Field, signed: bool): seq<Error> {
    When(!IsNone(v) && !v.Int?, Invalid(record, field)) + When(v.Int? && !signed && v.n < 0, Negative(record, field))
  }

  function FieldErrors(r: Record, record: nat): seq<Error> {
    RequiredErrors(r.sequence, record, SEQUENCE) + RequiredErrors(r.mono, record, MONO)
      + RequiredErrors(r.boot, record, BOOT) + RequiredErrors(r.span, record, SPAN)
      + OptionalErrors(r.offset, record, OFFSET, true) + OptionalErrors(r.gap, record, GAP, false)
      + OptionalErrors(r.elapsedMono, record, ELAPSED_MONO, false)
      + OptionalErrors(r.elapsedBoot, record, ELAPSED_BOOT, false)
      + OptionalErrors(r.delta, record, DELTA, true) + OptionalErrors(r.cpu, record, CPU, false)
  }

  function FieldPass(rs: seq<Record>, k: nat): seq<Error>
    requires k <= |rs|
  {
    if k == 0 then [] else FieldPass(rs, k - 1) + FieldErrors(rs[k - 1], k)
  }

  // ----- identity and order of the records -----

  predicate IntSequences(rs: seq<Record>) {
    forall r | r in rs :: r.sequence.Int?
  }

  predicate Contiguous(rs: seq<Record>) {
    forall i | 0 <= i < |rs| :: rs[i].sequence == Int(i)
  }

  function SequenceErrors(rs: seq<Record>): seq<Error> {
    if !IntSequences(rs) then [SequenceNonInteger]
    else
      When(!Contiguous(rs), SequenceNotContiguous)
      + When(exists i, j | 0 <= i < j < |rs| :: rs[i].sequence == rs[j].sequence, DuplicateSequence)
      + When(exists i, j | 0 <= i < j < |rs| ::
               rs[i].sequence.Int? && rs[j].sequence.Int? && rs[i].sequence.n > rs[j].sequence.n, SequenceRegression)
  }

  /** The set of trial ids has one element, and it is not null. */
  predicate OneTrial(rs: seq<Record>) {
    rs != [] && !IsNone(rs[0].trialId) && forall r | r in rs :: Same(rs[0].trialId, r.trialId)
  }

  function OfKind(rs: seq<Record>, kind: string): (r: seq<Record>)
    ensures forall x | x in r :: x in rs && IsKind(x, kind)
  {
    if rs == [] then []
    else
      var front := OfKind(rs[..|rs| - 1], kind);
      if IsKind(rs[|rs| - 1], kind) then front + [rs[|rs| - 1]] else front
  }

  function MetadataOf(rs: seq<Record>): Record {
    var ms := OfKind(rs, "metadata");
    if |ms| == 1 then ms[0] else EMPTY
  }

  function EndOf(rs: seq<Record>): Option<Record> {
    var es := OfKind(rs, "end");
    if |es| == 1 then Some(es[0]) else None
  }

  function StructureErrors(rs: seq<Record>): seq<Error>
    requires rs != []
  {
    When(!OneTrial(rs), TrialIdMismatch)
      + When(|OfKind(rs, "metadata")| != 1, MetadataCount)
      + When(|OfKind(rs, "end")| != 1, EndCount)
      + When(!IsKind(rs[0], "metadata"), MetadataNotFirst)
      + When(!IsKind(rs[|rs| - 1], "end"), EndNotLast)
      + When(EndOf(rs).Some? && EndOf(rs).value.termination != Str("completed"), EndNotCompleted)
  }

  function PointsOf(rs: seq<Record>): seq<Record> {
    OfKind(rs, "sample") + (if EndOf(rs).Some? then [EndOf(rs).value] else [])
  }

  function TimelineOf(rs: seq<Record>): seq<Record> {
    (if |OfKind(rs, "metadata")| == 1 then [MetadataOf(rs)] else []) + PointsOf(rs)
  }

  // ----- neighbours on the timeline -----

  function PairErrors(left: Record, right: Record): seq<Error> {
    When(left.mono.Int? && right.mono.Int? && right.mono.n < left.mono.n, MonotonicRegression)
      + (if left.boot.Int? && right.boot.Int? then
           When(right.boot.n < left.boot.n, BoottimeRegression)
           + When(right.gap.Int? && left.mono.Int? && right.mono.Int? && right.gap.n != right.mono.n - left.mono.n,
                  GapFieldMismatch)
         else [])
      + When(right.span.Int? && right.span.n > MAX_PAIR_SPAN_NS, PairSpanExceeded)
  }

  /** The errors of the first `k` neighbouring pairs. */
  function PairPass(ts: seq<Record>, k: nat): seq<Error>
    requires k == 0 || k < |ts|
  {
    if k == 0 then [] else PairPass(ts, k - 1) + PairErrors(ts[k - 1], ts[k])
  }

  // ----- each record of the timeline -----

  predicate HasClocks(r: Record) {
    r.mono.Int? && r.boot.Int?
  }

  function OffsetOf(r: Record): int
    requires HasClocks(r)
  {
    r.boot.n - r.mono.n
  }

  predicate IsPoint(r: Record) {
    IsKind(r, "sample") || IsKind(r, "end")
  }

  predicate GoodGap(r: Record) {
    r.gap.Int? && r.gap.n >= 0
  }

  function RecordErrors(r: Record): seq<Error> {
    When(HasClocks(r) && !EqualsInt(r.offset, r.boot.n - r.mono.n), OffsetFieldMismatch)
      + (if !IsPoint(r) then []
         else if !GoodGap(r) then [GapInvalid]
         else When(r.gap.n > MAX_GAP_NS, GapExceeded))
  }

  function RecordPass(ts: seq<Record>, k: nat): seq<Error>
    requires k <= |ts|
  {
    if k == 0 then [] else RecordPass(ts, k - 1) + RecordErrors(ts[k - 1])
  }

  function Offsets(ts: seq<Record>, k: nat): seq<int>
    requires k <= |ts|
  {
    if k == 0 then []
    else Offsets(ts, k - 1) + (if HasClocks(ts[k - 1]) then [OffsetOf(ts[k - 1])] else [])
  }

  function Gaps(ts: seq<Record>, k: nat): seq<int>
    requires k <= |ts|
  {
    if k == 0 then []
    else Gaps(ts, k - 1) + (if IsPoint(ts[k - 1]) && GoodGap(ts[k - 1]) then [ts[k - 1].gap.n] else [])
  }

  // ----- the detection margin -----

  predicate Ascending(s: seq<int>) {
    |s| <= 1 || (s[0] <= s[1] && Ascending(s[1..]))
  }

  function Insert(x: int, s: seq<int>): (r: seq<int>)
    ensures |r| == |s| + 1
  {
    if s == [] || x <= s[0] then [x] + s else [s[0]] + Insert(x, s[1..])
  }

  lemma InsertUnfold(x: int, s: seq<int>)
    ensures Insert(x, s) == if s == [] || x <= s[0] then [x] + s else [s[0]] + Insert(x, s[1..])
  {
  }

  lemma {:induction false} InsertSorts(x: int, s: seq<int>)
    requires Ascending(s)
    ensures Ascending(Insert(x, s)) && multiset(Insert(x, s)) == multiset{x} + multiset(s)
    ensures Insert(x, s)[0] == if s == [] || x <= s[0] then x else s[0]
  {
    InsertUnfold(x, s);
    hide Insert;
    if s != [] && x > s[0] {
      var tail := Insert(x, s[1..]);
      InsertSorts(x, s[1..]);
      assert s == [s[0]] + s[1..] && ([s[0]] + tail)[1..] == tail;
      assert multiset([s[0]] + tail) == multiset{s[0]} + multiset(tail);
    } else {
      assert ([x] + s)[1..] == s;
    }
  }

  /** Python's `sorted` on integers. */
  function Sorted(s: seq<int>): (r: seq<int>)
    ensures Ascending(r) && multiset(r) == multiset(s) && |r| == |s|
  {
    if s == [] then []
    else
      assert s == [s[0]] + s[1..];
      InsertSorts(s[0], Sorted(s[1..]));
      Insert(s[0], Sorted(s[1..]))
  }

  /** The index `ceil(0.95 * n) - 1`, with the fraction kept exact. */
  function PercentileIndex(n: nat): (k: nat)
    requires n > 0
    ensures k < n && 20 * k < 19 * n <= 20 * (k + 1)
  {
    (19 * n + 19) / 20 - 1
  }

  function Percentile(s: seq<int>): Option<int> {
    if s == [] then None else Some(Sorted(s)[PercentileIndex(|s|)])
  }

  function Spans(ts: seq<Record>, k: nat): seq<int>
    requires k <= |ts|
  {
    if k == 0 then []
    else Spans(ts, k - 1) + (if ts[k - 1].span.Int? && ts[k - 1].span.n >= 0 then [ts[k - 1].span.n] else [])
  }

  predicate GoodResolution(v: JVal) {
    v.Int? && v.n > 0
  }

  function MaxResolution(m: Record): Option<int> {
    var a, b := GoodResolution(m.monoResolution), GoodResolution(m.bootResolution);
    if a && b then Some(if m.monoResolution.n >= m.bootResolution.n then m.monoResolution.n else m.bootResolution.n)
    else if a then Some(m.monoResolution.n)
    else if b then Some(m.bootResolution.n)
    else None
  }

  function MarginOf(maxResolution: Option<int>, spans: seq<int>): (t: int)
    ensures t >= MIN_DETECTION_MARGIN_NS
  {
    match maxResolution
    case None => MIN_DETECTION_MARGIN_NS
    case Some(resolution) =>
      var p95 := if Percentile(spans).Some? then Percentile(spans).value else 0;
      var margin := (2 * p95 + 4 * resolution) * 4;
      if margin > MIN_DETECTION_MARGIN_NS then margin else MIN_DETECTION_MARGIN_NS
  }

  function Threshold(m: Record, ts: seq<Record>): int {
    MarginOf(MaxResolution(m), Spans(ts, |ts|))
  }

  // ----- offsets against the baseline -----

  function MaxOf(s: seq<int>): (m: int)
    requires s != []
    ensures m in s && forall x | x in s :: x <= m
  {
    if |s| == 1 then s[0]
    else
      var front := MaxOf(s[..|s| - 1]);
      assert forall x | x in s :: x in s[..|s| - 1] || x == s[|s| - 1];
      if s[|s| - 1] > front then s[|s| - 1] else front
  }

  /** The largest offset less the first one. */
  function MaxChange(offsets: seq<int>): Option<int> {
    if offsets == [] then None else Some(MaxOf(offsets) - offsets[0])
  }

  function StepPass(offsets: seq<int>, threshold: int, k: nat): seq<Error>
    requires k == 0 || k < |offsets|
  {
    if k == 0 then []
    else StepPass(offsets, threshold, k - 1) + When(offsets[k] - offsets[k - 1] < -threshold, OffsetStepRegression)
  }

  function OffsetErrors(offsets: seq<int>, threshold: int): seq<Error> {
    StepPass(offsets, threshold, if offsets == [] then 0 else |offsets| - 1)
      + When(MaxChange(offsets).Some? && MaxChange(offsets).value < -threshold, OffsetLargeRegression)
  }

  // ----- elapsed fields -----

  /** `metadata.get(field, own)` taken from `own`. */
  function Elapsed(own: int, start: JVal): Option<JVal> {
    if start.Absent? then Some(Int(0)) else Minus(own, start)
  }

  function ElapsedErrors(r: Record, m: Record, baseline: int): Option<seq<Error>> {
    if !HasClocks(r) then Some([])
    else
      var mono, boot := Elapsed(r.mono.n, m.mono), Elapsed(r.boot.n, m.boot);
      if mono.None? || boot.None? then None
      else Some(When(!Same(mono.value, r.elapsedMono), ElapsedMonoMismatch)
                + When(!Same(boot.value, r.elapsedBoot), ElapsedBootMismatch)
                + When(!EqualsInt(r.delta, OffsetOf(r) - baseline), DeltaMismatch))
  }

  function ElapsedPass(ps: seq<Record>, m: Record, baseline: int, k: nat): Option<seq<Error>>
    requires k <= |ps|
  {
    if k == 0 then Some([])
    else
      var front, last := ElapsedPass(ps, m, baseline, k - 1), ElapsedErrors(ps[k - 1], m, baseline);
      if front.None? || last.None? then None else Some(front.value + last.value)
  }

  // ----- boot identity -----

  predicate BaselineUnknown(m: Record) {
    m.bootStatus != Str("AVAILABLE") || !m.bootId.Str? || m.bootId.s == ""
  }

  predicate BootUnreadable(r: Record) {
    r.bootStatus != Str("MISMATCH") && (r.bootStatus != Str("AVAILABLE") || !r.bootId.Str?)
  }

  function BootErrors(r: Record, m: Record): seq<Error> {
    When(r.bootStatus == Str("MISMATCH")
         || (!BootUnreadable(r) && !IsNone(m.bootId) && r.bootId != m.bootId), BootIdChanged)
  }

  function BootPass(ps: seq<Record>, m: Record, k: nat): seq<Error>
    requires k <= |ps|
  {
    if k == 0 then [] else BootPass(ps, m, k - 1) + BootErrors(ps[k - 1], m)
  }

  predicate BootUnknown(ps: seq<Record>, m: Record) {
    BaselineUnknown(m) || exists i | 0 <= i < |ps| :: BootUnreadable(ps[i])
  }

  // ----- the trial's cgroup -----

  predicate BindingUnknown(m: Record) {
    || !m.trialPid.Int? || m.trialPid.n <= 0
    || m.bindingStatus != Str("AVAILABLE")
    || !m.cgroupPath.Str? || m.cgroupPath.s == ""
    || !m.startTicks.Int? || m.startTicks.n < 0
  }

  predicate IsFlag(v: JVal) {
    EqualsInt(v, 0) || EqualsInt(v, 1)
  }

  predicate Readable(r: Record) {
    r.cgroupStatus == Str("AVAILABLE") && IsFlag(r.frozen) && IsFlag(r.populated)
  }

  function CountReadable(ps: seq<Record>, k: nat): (n: nat)
    requires k <= |ps|
    ensures n <= k && (n == k <==> forall i | 0 <= i < k :: Readable(ps[i]))
  {
    if k == 0 then 0 else CountReadable(ps, k - 1) + if Readable(ps[k - 1]) then 1 else 0
  }

  predicate CgroupReadUnknown(ps: seq<Record>, k: nat)
    requires k <= |ps|
  {
    exists i | 0 <= i < k :: !Readable(ps[i])
  }

  predicate SomeFrozen(ps: seq<Record>, k: nat)
    requires k <= |ps|
  {
    exists i | 0 <= i < k :: Readable(ps[i]) && EqualsInt(ps[i].frozen, 1)
  }

  predicate SomeNotPopulated(ps: seq<Record>, k: nat)
    requires k <= |ps|
  {
    exists i | 0 <= i < k :: Readable(ps[i]) && EqualsInt(ps[i].populated, 0)
  }

  // ----- the report -----

  function SettingErrors(rs: seq<Record>): seq<Error> {
    var m := MetadataOf(rs);
    When(|OfKind(rs, "sample")| < 2, InsufficientSamples)
      + When(!m.intervalMs.Int? || !(MIN_INTERVAL_MS <= m.intervalMs.n <= MAX_INTERVAL_MS), IntervalOutside)
      + When(!GoodResolution(m.monoResolution), ResolutionInvalid(MONO_RESOLUTION))
      + When(!GoodResolution(m.bootResolution), ResolutionInvalid(BOOT_RESOLUTION))
  }

  function EndCountErrors(rs: seq<Record>): seq<Error> {
    When(EndOf(rs).Some? && !EqualsInt(EndOf(rs).value.sampleCount, |OfKind(rs, "sample")|), SampleCountMismatch)
  }

  /** The errors up to the settings, in the order they are found. */
  function EarlyErrors(rs: seq<Record>, parse: seq<string>): seq<Error>
    requires rs != []
  {
    var ts := TimelineOf(rs);
    ParseErrors(parse)
      + FieldPass(rs, |rs|) + SequenceErrors(rs) + StructureErrors(rs)
      + PairPass(ts, if ts == [] then 0 else |ts| - 1) + RecordPass(ts, |ts|) + SettingErrors(rs)
  }

  /** The errors of the offset and elapsed checks, unless one raises. */
  function ClockErrors(rs: seq<Record>): Option<seq<Error>> {
    var ts := TimelineOf(rs);
    var offsets := Offsets(ts, |ts|);
    var steps := OffsetErrors(offsets, Threshold(MetadataOf(rs), ts));
    if offsets == [] then Some(steps)
    else
      var elapsed := ElapsedPass(PointsOf(rs), MetadataOf(rs), offsets[0], |PointsOf(rs)|);
      if elapsed.None? then None else Some(steps + elapsed.value)
  }

  function LateErrors(rs: seq<Record>): seq<Error> {
    var ps := PointsOf(rs);
    EndCountErrors(rs) + BootPass(ps, MetadataOf(rs), |ps|) + When(CountReadable(ps, |ps|) < |ps|, CgroupIncomplete)
  }

  predicate CpuRegressed(rs: seq<Record>) {
    && EndOf(rs).Some? && MetadataOf(rs).cpu.Int? && EndOf(rs).value.cpu.Int?
    && EndOf(rs).value.cpu.n < MetadataOf(rs).cpu.n
  }

  function Note(c: bool, w: Warning): seq<Warning> {
    if c then [w] else []
  }

  predicate CgroupIsUnknown(rs: seq<Record>) {
    BindingUnknown(MetadataOf(rs)) || CgroupReadUnknown(PointsOf(rs), |PointsOf(rs)|)
  }

  function Warnings(rs: seq<Record>): seq<Warning> {
    var ps := PointsOf(rs);
    Note(SomeFrozen(ps, |ps|), CgroupFrozen) + Note(SomeNotPopulated(ps, |ps|), CgroupNotPopulated)
      + Note(CgroupIsUnknown(rs), CgroupUnknown) + Note(BootUnknown(ps, MetadataOf(rs)), BootIdUnknown)
      + Note(CpuRegressed(rs), CpuRegression)
  }

  /** Errors that leave the clock timeline usable. */
  predicate IsCgroupError(e: Error) {
    e.CgroupIncomplete? || (e.Parse? && "CGROUP_" <= e.text)
  }

  predicate CoverageInvalid(errors: seq<Error>) {
    exists e | e in errors :: !IsCgroupError(e)
  }

  predicate ContextUnknown(rs: seq<Record>) {
    var ps := PointsOf(rs);
    CgroupIsUnknown(rs) || SomeFrozen(ps, |ps|) || SomeNotPopulated(ps, |ps|) || BootUnknown(ps, MetadataOf(rs))
  }

  predicate SuspendObserved(rs: seq<Record>) {
    var ts := TimelineOf(rs);
    var change := MaxChange(Offsets(ts, |ts|));
    change.Some? && change.value > Threshold(MetadataOf(rs), ts)
  }

  function StatusOf(rs: seq<Record>, errors: seq<Error>): Status {
    if CoverageInvalid(errors) then COVERAGE_INVALID
    else if ContextUnknown(rs) then C2_UNKNOWN
    else if SuspendObserved(rs) then SUSPEND_OBSERVED
    else NO_SUSPEND_OBSERVED
  }

  function ParseErrors(parse: seq<string>): (r: seq<Error>)
    ensures |r| == |parse| && forall i | 0 <= i < |parse| :: r[i] == Parse(parse[i])
  {
    seq(|parse|, i requires 0 <= i < |parse| => Parse(parse[i]))
  }

  function AnalyzeResult(rs: seq<Record>, parse: seq<string>): Result<Report, Crash> {
    if rs == [] then
      Ok(Report(COVERAGE_INVALID, 0, 0, 0, None, [], if parse == [] then [NoRecords] else ParseErrors(parse), []))
    else
      match ClockErrors(rs)
      case None => Err(TypeError)
      case Some(clock) =>
        var ts := TimelineOf(rs);
        var errors := EarlyErrors(rs, parse) + clock + LateErrors(rs);
        Ok(Report(StatusOf(rs, errors), |OfKind(rs, "sample")|, CountReadable(PointsOf(rs), |PointsOf(rs)|),
                  Threshold(MetadataOf(rs), ts), MaxChange(Offsets(ts, |ts|)), Gaps(ts, |ts|), errors, Warnings(rs)))
  }
}
