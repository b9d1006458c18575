/** The verdict of a report on any records, field by field, and the context it needs. */
module ClockReport {
  import opened Wrappers
  import opened JsonValues
  import opened ClockRecords
  import opened ClockAnalyzer
  import opened ClockVerdict
  import opened ClockMargin

  // ----- the context -----

  predicate IsText(v: JVal) {
    v.Str? && v.s != ""
  }

  /** The trial was bound to a process and its cgroup, and the boot id of the start was read. */
  predicate StartKnown(m: Record) {
    && m.trialPid.Int? && m.trialPid.n > 0 && m.startTicks.Int? && m.startTicks.n >= 0
    && m.bindingStatus == Str("AVAILABLE") && IsText(m.cgroupPath)
    && m.bootStatus == Str("AVAILABLE") && IsText(m.bootId)
  }

  /** The point's cgroup was read, thawed and populated, and its boot id was read or found to differ. */
  predicate PointKnown(r: Record) {
    && r.cgroupStatus == Str("AVAILABLE") && Same(r.frozen, Int(0)) && Same(r.populated, Int(1))
    && (r.bootStatus == Str("MISMATCH") || (r.bootStatus == Str("AVAILABLE") && r.bootId.Str?))
  }

  lemma ContextExactly(rs: seq<Record>)
    ensures !ContextUnknown(rs) <==> StartKnown(MetadataOf(rs)) && forall r | r in PointsOf(rs) :: PointKnown(r)
  {
    hide MetadataOf, PointsOf;
    var ps, m := PointsOf(rs), MetadataOf(rs);
    forall r ensures PointKnown(r) <==>
      Readable(r) && !EqualsInt(r.frozen, 1) && !EqualsInt(r.populated, 0) && !BootUnreadable(r)
    {
    }
    assert StartKnown(m) <==> !BindingUnknown(m) && !BaselineUnknown(m);
    hide PointKnown, StartKnown, Readable, BootUnreadable, BindingUnknown, BaselineUnknown, EqualsInt;
    if !ContextUnknown(rs) {
      forall r | r in ps ensures PointKnown(r) {
        var i :| 0 <= i < |ps| && ps[i] == r;
      }
    }
  }

  // ----- the rise of the offset -----

  predicate TwoClocks(r: Record) {
    r.mono.Int? && r.boot.Int?
  }

  /** BOOTTIME gained more than `t` on MONOTONIC between the first record with both clocks and another. */
  predicate RisesBetween(ts: seq<Record>, i: nat, j: nat, t: int) {
    && i <= j < |ts| && TwoClocks(ts[i]) && TwoClocks(ts[j])
    && (forall k | 0 <= k < i :: !TwoClocks(ts[k]))
    && (ts[j].boot.n - ts[j].mono.n) - (ts[i].boot.n - ts[i].mono.n) > t
  }

  ghost predicate RisesOver(ts: seq<Record>, t: int) {
    exists i: nat, j: nat :: RisesBetween(ts, i, j, t)
  }

  lemma {:induction false} OffsetsFound(ts: seq<Record>, k: nat, x: int)
    requires k <= |ts|
    ensures x in Offsets(ts, k) <==> exists j :: 0 <= j < k && TwoClocks(ts[j]) && ts[j].boot.n - ts[j].mono.n == x
    ensures Offsets(ts, k) == [] <==> forall j | 0 <= j < k :: !TwoClocks(ts[j])
  {
    if k > 0 {
      OffsetsFound(ts, k - 1, x);
    }
  }

  lemma {:induction false} FirstOffset(ts: seq<Record>, k: nat, i: nat)
    requires i < k <= |ts| && TwoClocks(ts[i]) && forall j | 0 <= j < i :: !TwoClocks(ts[j])
    ensures Offsets(ts, k) != [] && Offsets(ts, k)[0] == ts[i].boot.n - ts[i].mono.n
  {
    if k - 1 > i {
      FirstOffset(ts, k - 1, i);
    } else {
      OffsetsFound(ts, i, 0);
    }
  }

  lemma {:induction false} FirstWithClocks(ts: seq<Record>, k: nat) returns (i: nat)
    requires k < |ts| && TwoClocks(ts[k])
    ensures i <= k && TwoClocks(ts[i]) && forall j | 0 <= j < i :: !TwoClocks(ts[j])
  {
    if j: nat :| j < k && TwoClocks(ts[j]) {
      i := FirstWithClocks(ts, j);
    } else {
      i := k;
    }
  }

  lemma RiseExactly(ts: seq<Record>, t: int)
    requires t >= 0
    ensures
      var change := MaxChange(Offsets(ts, |ts|));
      change.Some? && change.value > t <==> RisesOver(ts, t)
  {
    hide Offsets, MaxOf;
    var offsets := Offsets(ts, |ts|);
    if offsets != [] && MaxOf(offsets) - offsets[0] > t {
      OffsetsFound(ts, |ts|, MaxOf(offsets));
      var j: nat :| j < |ts| && TwoClocks(ts[j]) && ts[j].boot.n - ts[j].mono.n == MaxOf(offsets);
      var i := FirstWithClocks(ts, j);
      FirstOffset(ts, |ts|, i);
      assert RisesBetween(ts, i, j, t);
    }
    if i: nat, j: nat :| RisesBetween(ts, i, j, t) {
      FirstOffset(ts, |ts|, i);
      OffsetsFound(ts, |ts|, ts[j].boot.n - ts[j].mono.n);
    }
  }

  // ----- the verdict -----

  /** An error that leaves the timeline usable: an unread cgroup, or a parse error of that family. */
  predicate LeavesTimeline(e: Error) {
    e == CgroupIncomplete || (e.Parse? && |e.text| >= 7 && e.text[..7] == "CGROUP_")
  }

  /**
   The verdict of a report is COVERAGE_INVALID when an error spoils the timeline, else C2_UNKNOWN when
   the context is not known throughout, else SUSPEND_OBSERVED when the offset rose over the threshold.
   */
  lemma VerdictExactly(rs: seq<Record>, parse: seq<string>)
    requires rs != [] && AnalyzeResult(rs, parse).Ok?
    ensures
      var report := AnalyzeResult(rs, parse).value;
      var usable := forall e | e in report.errors :: LeavesTimeline(e);
      var known := StartKnown(MetadataOf(rs)) && forall r | r in PointsOf(rs) :: PointKnown(r);
      var rises := RisesOver(TimelineOf(rs), report.threshold);
      && IsThreshold(MetadataOf(rs), TimelineOf(rs), report.threshold)
      && (report.status == COVERAGE_INVALID <==> !usable)
      && (report.status == C2_UNKNOWN <==> usable && !known)
      && (report.status == SUSPEND_OBSERVED <==> usable && known && rises)
      && (report.status == NO_SUSPEND_OBSERVED <==> usable && known && !rises)
  {
    hide ClockErrors, EarlyErrors, LateErrors, Warnings, ContextUnknown, IsThreshold, Threshold, Gaps, MaxChange, Offsets,
      CountReadable, PointsOf, TimelineOf, OfKind, MetadataOf, StartKnown, PointKnown, RisesOver;
    var report := AnalyzeResult(rs, parse).value;
    ReportedThreshold(rs, parse);
    ContextExactly(rs);
    ThresholdIsPositive(MetadataOf(rs), TimelineOf(rs));
    RiseExactly(TimelineOf(rs), report.threshold);
    forall e ensures LeavesTimeline(e) <==> IsCgroupError(e) {
      FamilyExactly(e);
    }
    hide LeavesTimeline, IsCgroupError;
  }

  lemma FamilyExactly(e: Error)
    ensures LeavesTimeline(e) <==> IsCgroupError(e)
  {
    if e.Parse? && |e.text| >= 7 {
      assert e.text[..7] == "CGROUP_" <==> "CGROUP_" <= e.text;
    }
  }

  // ----- the warnings -----

  predicate Is01(v: JVal) {
    Same(v, Int(0)) || Same(v, Int(1))
  }

  predicate CgroupSeen(r: Record) {
    r.cgroupStatus == Str("AVAILABLE") && Is01(r.frozen) && Is01(r.populated)
  }

  predicate BootSeen(r: Record) {
    r.bootStatus == Str("MISMATCH") || (r.bootStatus == Str("AVAILABLE") && r.bootId.Str?)
  }

  /** The trial was bound to a process and its cgroup. */
  predicate IsBound(m: Record) {
    && m.trialPid.Int? && m.trialPid.n > 0 && m.startTicks.Int? && m.startTicks.n >= 0
    && m.bindingStatus == Str("AVAILABLE") && IsText(m.cgroupPath)
  }

  /** Which warnings a report carries. */
  lemma WarningsExactly(rs: seq<Record>, parse: seq<string>)
    requires rs != [] && AnalyzeResult(rs, parse).Ok?
    ensures
      var w, ps, m := AnalyzeResult(rs, parse).value.warnings, PointsOf(rs), MetadataOf(rs);
      && (CgroupFrozen in w <==> exists r | r in ps :: CgroupSeen(r) && Same(r.frozen, Int(1)))
      && (CgroupNotPopulated in w <==> exists r | r in ps :: CgroupSeen(r) && Same(r.populated, Int(0)))
      && (CgroupUnknown in w <==> !IsBound(m) || exists r | r in ps :: !CgroupSeen(r))
      && (BootIdUnknown in w <==>
            !(m.bootStatus == Str("AVAILABLE") && IsText(m.bootId)) || exists r | r in ps :: !BootSeen(r))
      && (CpuRegression in w <==>
            && EndOf(rs).Some? && m.cpu.Int? && EndOf(rs).value.cpu.Int? && EndOf(rs).value.cpu.n < m.cpu.n)
  {
    WarningMembers(rs, parse);
    hide AnalyzeResult, PointsOf, MetadataOf, EndOf, Warnings, CpuRegressed, CgroupSeen, BootSeen, IsBound;
    PointWarnings(PointsOf(rs));
    StartWarnings(MetadataOf(rs));
    assert CpuRegressed(rs) <==>
      && EndOf(rs).Some? && MetadataOf(rs).cpu.Int? && EndOf(rs).value.cpu.Int?
      && EndOf(rs).value.cpu.n < MetadataOf(rs).cpu.n by {
      CpuExactly(rs);
    }
  }

  lemma CpuExactly(rs: seq<Record>)
    ensures CpuRegressed(rs) <==>
      && EndOf(rs).Some? && MetadataOf(rs).cpu.Int? && EndOf(rs).value.cpu.Int?
      && EndOf(rs).value.cpu.n < MetadataOf(rs).cpu.n
  {
  }

  lemma WarningMembers(rs: seq<Record>, parse: seq<string>)
    requires rs != [] && AnalyzeResult(rs, parse).Ok?
    ensures
      var w, ps, m := AnalyzeResult(rs, parse).value.warnings, PointsOf(rs), MetadataOf(rs);
      && (CgroupFrozen in w <==> SomeFrozen(ps, |ps|))
      && (CgroupNotPopulated in w <==> SomeNotPopulated(ps, |ps|))
      && (CgroupUnknown in w <==> BindingUnknown(m) || CgroupReadUnknown(ps, |ps|))
      && (BootIdUnknown in w <==> BootUnknown(ps, m))
      && (CpuRegression in w <==> CpuRegressed(rs))
  {
    ReportedWarnings(rs, parse);
    hide AnalyzeResult, PointsOf, MetadataOf, EndOf, Note, SomeFrozen, SomeNotPopulated, CgroupReadUnknown, BindingUnknown,
      BootUnknown, CpuRegressed;
    var ps := PointsOf(rs);
    FiveNotes(SomeFrozen(ps, |ps|), SomeNotPopulated(ps, |ps|), CgroupIsUnknown(rs), BootUnknown(ps, MetadataOf(rs)),
              CpuRegressed(rs));
  }

  lemma FiveNotes(a: bool, b: bool, c: bool, d: bool, e: bool)
    ensures
      var w := Note(a, CgroupFrozen) + Note(b, CgroupNotPopulated) + Note(c, CgroupUnknown) + Note(d, BootIdUnknown)
        + Note(e, CpuRegression);
      && (CgroupFrozen in w <==> a) && (CgroupNotPopulated in w <==> b) && (CgroupUnknown in w <==> c)
      && (BootIdUnknown in w <==> d) && (CpuRegression in w <==> e)
  {
    NoteMembers(a, CgroupFrozen);
    NoteMembers(b, CgroupNotPopulated);
    NoteMembers(c, CgroupUnknown);
    NoteMembers(d, BootIdUnknown);
    NoteMembers(e, CpuRegression);
    hide Note;
  }

  lemma NoteMembers(c: bool, w: Warning)
    ensures forall x :: x in Note(c, w) <==> c && x == w
  {
  }

  lemma ReportedWarnings(rs: seq<Record>, parse: seq<string>)
    requires rs != [] && AnalyzeResult(rs, parse).Ok?
    ensures AnalyzeResult(rs, parse).value.warnings == Warnings(rs)
  {
    hide ClockErrors, EarlyErrors, LateErrors, Threshold, Gaps, MaxChange, Offsets, PointsOf, TimelineOf, OfKind, MetadataOf,
      StatusOf, CountReadable, Warnings;
  }

  lemma StartWarnings(m: Record)
    ensures BindingUnknown(m) <==> !IsBound(m)
    ensures BaselineUnknown(m) <==> !(m.bootStatus == Str("AVAILABLE") && IsText(m.bootId))
  {
  }

  lemma OneRecord(r: Record)
    ensures CgroupSeen(r) <==> Readable(r)
    ensures BootSeen(r) <==> !BootUnreadable(r)
    ensures EqualsInt(r.frozen, 1) <==> Same(r.frozen, Int(1))
    ensures EqualsInt(r.populated, 0) <==> Same(r.populated, Int(0))
  {
  }

  lemma PointWarnings(ps: seq<Record>)
    ensures SomeFrozen(ps, |ps|) <==> exists r | r in ps :: CgroupSeen(r) && Same(r.frozen, Int(1))
    ensures SomeNotPopulated(ps, |ps|) <==> exists r | r in ps :: CgroupSeen(r) && Same(r.populated, Int(0))
    ensures CgroupReadUnknown(ps, |ps|) <==> exists r | r in ps :: !CgroupSeen(r)
    ensures (exists i | 0 <= i < |ps| :: BootUnreadable(ps[i])) <==> exists r | r in ps :: !BootSeen(r)
  {
    forall r: Record
      ensures CgroupSeen(r) <==> Readable(r)
      ensures BootSeen(r) <==> !BootUnreadable(r)
      ensures EqualsInt(r.frozen, 1) <==> Same(r.frozen, Int(1))
      ensures EqualsInt(r.populated, 0) <==> Same(r.populated, Int(0))
    {
      OneRecord(r);
    }
    hide CgroupSeen, Readable, BootSeen, BootUnreadable, EqualsInt, Same;
    assert forall i | 0 <= i < |ps| :: ps[i] in ps;
  }
}
