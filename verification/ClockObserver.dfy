/**
 The dual-clock observer: a metadata record, one sample per turn of the loop and an end record,
 built from the raw reads of its environment with checked 64-bit arithmetic.
 */
module ClockObserver {
  import opened Wrappers
  import opened ClockArith
  import opened JsonValues
  import opened ClockRecords

  // ----- the environment -----

  /** One cgroup read; -1 stands for a flag that was not seen. */
  datatype CgroupRead = CgroupRead(status: string, frozen: int, populated: int)

  /**
   Everything one turn meets. `failed` says that its sleep, a clock call or the write of its record
   fails, which ends the observer; a failed process-clock or boot-id read is None.
   */
  datatype Read = Read(
    failed: bool, before: Timespec, boot: Timespec, after: Timespec, cpu: Option<Timespec>, cgroup: CgroupRead,
    bootId: Option<string>)

  datatype Binding = Binding(status: string, path: string, startTicks: U64)

  datatype Session = Session(
    durationMs: nat,
    intervalMs: nat,
    trialId: string,
    trialPid: Option<nat>,
    binding: Binding,
    monoResolution: U64,
    bootResolution: U64,
    first: Read)

  // ----- clock samples -----

  datatype ClockSample = ClockSample(mono: U64, boot: U64, cpu: Option<U64>, span: U64)

  /** `read_clock_sample`, three conversions and an order check, in a turn nothing else ends. */
  function SampleOf(r: Read): Option<ClockSample> {
    var before, boot, after := TimespecToNs(r.before), TimespecToNs(r.boot), TimespecToNs(r.after);
    if r.failed || before.None? || boot.None? || after.None? || after.value < before.value then None
    else
      Some(ClockSample(
        Midpoint(before.value, after.value),
        boot.value,
        if r.cpu.Some? then TimespecToNs(r.cpu.value) else None,
        after.value - before.value))
  }

  function OffsetOfSample(s: ClockSample): Option<int> {
    SignedDifference(s.boot, s.mono)
  }

  /** The relative offset, kept only between offsets that are not negative. */
  function DeltaBetween(s: ClockSample, start: ClockSample): Option<int> {
    var offset, initial := OffsetOfSample(s), OffsetOfSample(start);
    if offset.Some? && initial.Some? && offset.value >= 0 && initial.value >= 0 then
      SignedDifference(offset.value, initial.value)
    else None
  }

  // ----- boot identity -----

  function ReadBootId(r: Read): Option<string> {
    if r.bootId.Some? && r.bootId.value != "" then r.bootId else None
  }

  function BootStatus(current: Option<string>, first: Option<string>): string {
    if current.None? then "UNAVAILABLE" else if first != current then "MISMATCH" else "AVAILABLE"
  }

  // ----- records -----

  function Optional(v: Option<int>): JVal {
    match v
    case None => Null
    case Some(n) => Int(n)
  }

  function OptionalText(v: Option<string>): JVal {
    match v
    case None => Null
    case Some(s) => Str(s)
  }

  function Flag(v: int): JVal {
    if v == 0 || v == 1 then Int(v) else Null
  }

  function EmitMetadata(s: Session, start: ClockSample): Record {
    var bootId := ReadBootId(s.first);
    var bound := s.binding.status == "AVAILABLE";
    EMPTY.(
      recordType := Str("metadata"), trialId := Str(s.trialId), sequence := Int(0),
      mono := Int(start.mono), boot := Int(start.boot), offset := Optional(OffsetOfSample(start)),
      gap := Null, elapsedMono := Int(0), elapsedBoot := Int(0), delta := Int(0),
      span := Int(start.span), cpu := Optional(start.cpu),
      monoResolution := Int(s.monoResolution), bootResolution := Int(s.bootResolution), intervalMs := Int(s.intervalMs),
      trialPid := Optional(s.trialPid), bindingStatus := Str(s.binding.status),
      cgroupPath := if bound then Str(s.binding.path) else Null,
      startTicks := if bound then Int(s.binding.startTicks) else Null,
      cgroupStatus := Str(s.first.cgroup.status), frozen := Flag(s.first.cgroup.frozen),
      populated := Flag(s.first.cgroup.populated),
      bootStatus := Str(if bootId.Some? then "AVAILABLE" else "UNAVAILABLE"), bootId := OptionalText(bootId))
  }

  /** The fields of a sample or end record; a difference that would wrap is written as null. */
  function EmitPoint(
      s: Session, kind: string, sequence: nat, sample: ClockSample, start: ClockSample, previous: ClockSample, r: Read)
    : Record
  {
    EMPTY.(
      recordType := Str(kind), trialId := Str(s.trialId), sequence := Int(sequence),
      mono := Int(sample.mono), boot := Int(sample.boot), offset := Optional(OffsetOfSample(sample)),
      gap := Optional(DifferenceU64(sample.mono, previous.mono)),
      elapsedMono := Optional(DifferenceU64(sample.mono, start.mono)),
      elapsedBoot := Optional(DifferenceU64(sample.boot, start.boot)),
      delta := Optional(DeltaBetween(sample, start)),
      span := Int(sample.span), cpu := Optional(sample.cpu),
      bootStatus := Str(BootStatus(ReadBootId(r), ReadBootId(s.first))), bootId := OptionalText(ReadBootId(r)),
      cgroupStatus := Str(r.cgroup.status), frozen := Flag(r.cgroup.frozen), populated := Flag(r.cgroup.populated))
  }

  function EmitEnd(
      s: Session, sequence: nat, sample: ClockSample, start: ClockSample, previous: ClockSample, r: Read, count: nat)
    : Record
  {
    EmitPoint(s, "end", sequence, sample, start, previous, r).(sampleCount := Int(count), termination := Str("completed"))
  }

  // ----- complete runs -----

  /** The samples are what the first reads convert to, the start in front. */
  predicate Converts(s: Session, turns: seq<Read>, cs: seq<ClockSample>) {
    && 1 <= |cs| <= |turns| + 1 && SampleOf(s.first) == Some(cs[0])
    && forall k | 0 <= k < |cs| - 1 :: SampleOf(turns[k]) == Some(cs[k + 1])
  }

  /** The loop leaves once BOOTTIME went back, or the duration passed on it. */
  predicate Leaves(s: Session, start: ClockSample, current: ClockSample) {
    current.boot < start.boot || current.boot - start.boot >= s.durationMs * 1_000_000
  }

  predicate Stays(s: Session, cs: seq<ClockSample>, k: nat)
    requires k <= |cs|
  {
    forall i | 1 <= i < k :: !Leaves(s, cs[0], cs[i])
  }

  /** A start, samples up to the first that leaves the loop, and one more pair for the end record. */
  predicate IsRun(s: Session, turns: seq<Read>, cs: seq<ClockSample>) {
    && |cs| >= 3 && Converts(s, turns, cs)
    && Stays(s, cs, |cs| - 2) && Leaves(s, cs[0], cs[|cs| - 2])
  }

  function SampleRecord(s: Session, turns: seq<Read>, cs: seq<ClockSample>, k: nat): Record
    requires 1 <= k < |cs| <= |turns| + 1
  {
    EmitPoint(s, "sample", k, cs[k], cs[0], cs[k - 1], turns[k - 1])
  }

  function RecordAt(s: Session, turns: seq<Read>, cs: seq<ClockSample>, k: nat): Record
    requires k < |cs| <= |turns| + 1
  {
    if k == 0 then EmitMetadata(s, cs[0])
    else if k < |cs| - 1 then SampleRecord(s, turns, cs, k)
    else EmitEnd(s, k, cs[k], cs[0], cs[k - 1], turns[k - 1], k - 1)
  }

  /** The records of a run: metadata, samples in sequence, end. */
  function RunRecords(s: Session, turns: seq<Read>, cs: seq<ClockSample>): seq<Record>
    requires |cs| <= |turns| + 1
  {
    seq(|cs|, k requires 0 <= k < |cs| => RecordAt(s, turns, cs, k))
  }

  lemma NoLonger(s: Session, turns: seq<Read>, a: seq<ClockSample>, b: seq<ClockSample>)
    requires IsRun(s, turns, a) && IsRun(s, turns, b)
    ensures |a| <= |b|
  {
    hide SampleOf, Leaves;
    var k := |b| - 2;
    SamePrefix(s, turns, a, b);
    assert forall i | 1 <= i < |a| - 2 && i < |b| :: !Leaves(s, b[0], b[i]);
    assert Leaves(s, b[0], b[k]);
  }

  lemma SamePrefix(s: Session, turns: seq<Read>, a: seq<ClockSample>, b: seq<ClockSample>)
    requires Converts(s, turns, a) && Converts(s, turns, b)
    ensures forall i | 0 <= i < |a| && i < |b| :: a[i] == b[i]
  {
    hide SampleOf;
    forall i | 0 <= i < |a| && i < |b| ensures a[i] == b[i] {
      if i > 0 {
        assert SampleOf(turns[i - 1]) == Some(a[i - 1 + 1]) == Some(b[i - 1 + 1]);
      }
    }
  }

  /** The reads determine the run. */
  lemma RunIsUnique(s: Session, turns: seq<Read>, a: seq<ClockSample>, b: seq<ClockSample>)
    requires IsRun(s, turns, a) && IsRun(s, turns, b)
    ensures a == b
  {
    hide SampleOf, Leaves;
    NoLonger(s, turns, a, b);
    NoLonger(s, turns, b, a);
    SamePrefix(s, turns, a, b);
  }

  /** A run cannot get past a read that fails or is missing. */
  lemma NoRun(s: Session, turns: seq<Read>, cs: seq<ClockSample>)
    requires Converts(s, turns, cs) && Stays(s, cs, |cs| - 1)
    requires |cs| - 1 < |turns| ==> SampleOf(turns[|cs| - 1]).None?
    ensures forall ds :: !IsRun(s, turns, ds)
  {
    hide SampleOf, Leaves;
    forall ds ensures !IsRun(s, turns, ds) {
      if |ds| >= 3 && Converts(s, turns, ds) {
        SamePrefix(s, turns, cs, ds);
        assert forall k | 0 <= k < |ds| - 1 :: SampleOf(turns[k]).Some?;
        assert |ds| <= |cs|;
        assert !Leaves(s, cs[0], cs[|ds| - 2]);
      }
    }
  }

  /**
   The observer's loop. It completes exactly when the reads hold a run, and then has written that
   run's records; a read that fails or is missing ends it without an end record.
   */
  method Observe(s: Session, turns: seq<Read>) returns (records: seq<Record>, completed: bool, ghost cs: seq<ClockSample>)
    ensures completed ==> IsRun(s, turns, cs) && records == RunRecords(s, turns, cs)
    ensures !completed ==> forall ds :: !IsRun(s, turns, ds)
  {
    hide SampleOf, Leaves, EmitPoint, EmitMetadata, OffsetOfSample, IsRun;
    records, cs := [], [];
    var first := SampleOf(s.first);
    if first.None? {
      NeverStarts(s, turns);
      return records, false, cs;
    }
    var start := first.value;
    records, cs := [EmitMetadata(s, start)], [start];
    var previous, sequence, sampleCount := start, 1, 0;
    var more := true;
    while more
      invariant |cs| == sampleCount + 1 == sequence == |records|
      invariant Converts(s, turns, cs) && start == cs[0] && previous == cs[sampleCount]
      invariant records[0] == EmitMetadata(s, start)
      invariant forall k | 1 <= k <= sampleCount :: records[k] == SampleRecord(s, turns, cs, k)
      invariant Stays(s, cs, if more then |cs| else |cs| - 1)
      invariant !more ==> sampleCount > 0 && Leaves(s, start, cs[sampleCount])
      decreases |turns| - sampleCount, more
    {
      var next := if sampleCount < |turns| then SampleOf(turns[sampleCount]) else None;
      if next.None? {
        NoRun(s, turns, cs);
        return records, false, cs;
      }
      var current := next.value;
      var record := EmitPoint(s, "sample", sequence, current, start, previous, turns[sampleCount]);
      cs := cs + [current];
      assert record == SampleRecord(s, turns, cs, sequence);
      records := records + [record];
      sequence := sequence + 1;
      sampleCount := sampleCount + 1;
      previous := current;
      more := !Leaves(s, start, current);
    }
    var next := if sampleCount < |turns| then SampleOf(turns[sampleCount]) else None;
    if next.None? {
      NoRun(s, turns, cs);
      return records, false, cs;
    }
    cs := cs + [next.value];
    var end := EmitEnd(s, sequence, next.value, start, previous, turns[sampleCount], sampleCount);
    assert end == RecordAt(s, turns, cs, sequence);
    records := records + [end];
    Completes(s, turns, cs);
    completed := true;
  }

  lemma NeverStarts(s: Session, turns: seq<Read>)
    requires SampleOf(s.first).None?
    ensures forall ds :: !IsRun(s, turns, ds)
  {
    hide SampleOf;
  }

  lemma Completes(s: Session, turns: seq<Read>, cs: seq<ClockSample>)
    requires |cs| >= 3 && Converts(s, turns, cs) && Stays(s, cs, |cs| - 2) && Leaves(s, cs[0], cs[|cs| - 2])
    ensures IsRun(s, turns, cs)
  {
  }

  // ----- runs in plain numbers -----

  /** The time is well formed and this many nanoseconds, within 64 bits. */
  predicate IsTime(t: Timespec, ns: int) {
    t.sec >= 0 && 0 <= t.nsec < 1_000_000_000 && ns == t.sec * 1_000_000_000 + t.nsec < 0x1_0000_0000_0000_0000
  }

  /** The sample a turn's three clock reads give: the middle of the outer two, the inner one, and their distance. */
  ghost predicate IsSample(r: Read, c: ClockSample) {
    && !r.failed
    && exists before, after ::
         && IsTime(r.before, before) && IsTime(r.after, after) && before <= after
         && IsTime(r.boot, c.boot) && c.mono == (before + after) / 2 && c.span == after - before
         && c.cpu == (if r.cpu.Some? then TimespecToNs(r.cpu.value) else None)
  }

  lemma SampleExactly(r: Read, c: ClockSample)
    ensures IsSample(r, c) <==> SampleOf(r) == Some(c)
  {
    TimeExactly(r.before);
    TimeExactly(r.boot);
    TimeExactly(r.after);
    hide TimespecToNs, IsTime;
    if SampleOf(r).Some? {
      var before, after := TimespecToNs(r.before).value, TimespecToNs(r.after).value;
      MiddleExactly(before, after);
      assert IsTime(r.before, before) && IsTime(r.after, after);
    }
    if IsSample(r, c) {
      var before, after :|
        && IsTime(r.before, before) && IsTime(r.after, after) && before <= after
        && IsTime(r.boot, c.boot) && c.mono == (before + after) / 2 && c.span == after - before
        && c.cpu == (if r.cpu.Some? then TimespecToNs(r.cpu.value) else None);
      MiddleExactly(TimespecToNs(r.before).value, TimespecToNs(r.after).value);
    }
  }

  lemma TimeExactly(t: Timespec)
    ensures forall ns :: IsTime(t, ns) <==> TimespecToNs(t).Some? && TimespecToNs(t).value == ns
  {
  }

  lemma MiddleExactly(a: U64, b: U64)
    requires a <= b
    ensures Midpoint(a, b) == (a + b) / 2
  {
  }

  /**
   A run is a start, samples while BOOTTIME has neither gone back nor passed the duration since the start,
   one sample where it has, and one more.
   */
  lemma RunExactly(s: Session, turns: seq<Read>, cs: seq<ClockSample>)
    ensures IsRun(s, turns, cs) <==>
      && 3 <= |cs| <= |turns| + 1 && IsSample(s.first, cs[0])
      && (forall k | 0 <= k < |cs| - 1 :: IsSample(turns[k], cs[k + 1]))
      && (forall k | 1 <= k < |cs| - 2 :: cs[0].boot <= cs[k].boot < cs[0].boot + s.durationMs * 1_000_000)
      && !(cs[0].boot <= cs[|cs| - 2].boot < cs[0].boot + s.durationMs * 1_000_000)
  {
    hide SampleOf, IsSample;
    forall r, c ensures IsSample(r, c) <==> SampleOf(r) == Some(c) {
      SampleExactly(r, c);
    }
  }

  // ----- the fields of a record -----

  /** A number, or null where there is none. */
  predicate IsOrNull(v: JVal, c: bool, n: int) {
    v == if c then Int(n) else Null
  }

  /** The boot id a turn read, if it is there and not empty. */
  predicate BootIdIs(r: Read, id: string) {
    r.bootId == Some(id) && id != ""
  }

  predicate InI64(n: int) {
    -0x7FFF_FFFF_FFFF_FFFF <= n <= 0x7FFF_FFFF_FFFF_FFFF
  }

  /** A cgroup flag that was seen as zero or one, or null. */
  predicate FlagIs(v: JVal, flag: int) {
    IsOrNull(v, flag == 0 || flag == 1, flag)
  }

  /** Every field of a sample or end record, by the clocks of its turn, of the turn before and of the start. */
  lemma RecordFields(
      s: Session, kind: string, sequence: nat, sample: ClockSample, start: ClockSample, previous: ClockSample, r: Read)
    ensures
      var p := EmitPoint(s, kind, sequence, sample, start, previous, r);
      var offset, first := sample.boot - sample.mono, start.boot - start.mono;
      && p.recordType == Str(kind) && p.trialId == Str(s.trialId) && p.sequence == Int(sequence)
      && p.mono == Int(sample.mono) && p.boot == Int(sample.boot) && p.span == Int(sample.span)
      && IsOrNull(p.cpu, sample.cpu.Some?, if sample.cpu.Some? then sample.cpu.value else 0)
      && IsOrNull(p.offset, InI64(offset), offset)
      && IsOrNull(p.gap, sample.mono >= previous.mono, sample.mono - previous.mono)
      && IsOrNull(p.elapsedMono, sample.mono >= start.mono, sample.mono - start.mono)
      && IsOrNull(p.elapsedBoot, sample.boot >= start.boot, sample.boot - start.boot)
      && IsOrNull(p.delta, 0 <= offset && InI64(offset) && 0 <= first && InI64(first), offset - first)
      && p.cgroupStatus == Str(r.cgroup.status) && FlagIs(p.frozen, r.cgroup.frozen) && FlagIs(p.populated, r.cgroup.populated)
  {
    hide Midpoint, TimespecToNs;
  }

  /** The boot id of a record, and whether it is the first one. */
  lemma RecordBootId(
      s: Session, kind: string, sequence: nat, sample: ClockSample, start: ClockSample, previous: ClockSample, r: Read, id: string)
    ensures
      var p := EmitPoint(s, kind, sequence, sample, start, previous, r);
      && (p.bootId == Str(id) <==> BootIdIs(r, id))
      && (p.bootId == Null <==> p.bootStatus == Str("UNAVAILABLE"))
      && (p.bootId == Str(id) ==> p.bootStatus == Str(if BootIdIs(s.first, id) then "AVAILABLE" else "MISMATCH"))
      && (p.bootId == Null || p.bootId.Str?)
  {
    hide SignedDifference, DifferenceU64;
  }
}
