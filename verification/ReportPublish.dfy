/**
 Publishing a comparison report over an older one: stage, move the old report aside, move the new
 one in, and put the old one back when that fails. Any operation may fail.
 */
module ReportPublish {
  import opened Wrappers

  /** A report directory: its two files, each absent until written. */
  datatype Report = Report(json: Option<string>, markdown: Option<string>)

  datatype Op =
    | MakeParent | MakeStage | WriteJson | WriteMarkdown
    | MoveOld | MoveNew | Restore | RemoveBackup | RemoveStage

  datatype Failure = Raised(op: Op) | NotOurs

  class Disk {
    var output: Option<Report>
    var backup: Option<Report>
    var stage: Option<Report>
    /** Every state of the output since the start. */
    ghost var seen: seq<Option<Report>>

    constructor (output: Option<Report>)
      ensures this.output == output && backup == None && stage == None && seen == []
    {
      this.output, backup, stage, seen := output, None, None, [];
    }
  }

  function Fresh(json: string, markdown: string): Report {
    Report(Some(json), Some(markdown))
  }

  /** Nothing keeps the run from reaching the replacement of the output. */
  predicate ReachesMove(before: Option<Report>, ours: bool, fails: Op -> bool) {
    && !fails(MakeParent) && (before.Some? ==> ours)
    && !fails(MakeStage) && !fails(WriteJson) && !fails(WriteMarkdown)
    && (before.Some? ==> !fails(MoveOld))
  }

  /** What stands in the output afterwards. */
  function OutputAfter(before: Option<Report>, ours: bool, latest: Report, fails: Op -> bool): Option<Report> {
    if !ReachesMove(before, ours, fails) then before
    else if !fails(MoveNew) then Some(latest)
    else if before.Some? && fails(Restore) then None
    else before
  }

  ghost predicate AtMostOne(fails: Op -> bool) {
    forall a, b | fails(a) && fails(b) :: a == b
  }

  /** The stage with both files, or a failure on the way. */
  method WriteStage(disk: Disk, json: string, markdown: string, fails: Op -> bool) returns (failure: Option<Failure>)
    requires disk.stage == None
    modifies disk`stage
    ensures failure.None? <==> !fails(MakeStage) && !fails(WriteJson) && !fails(WriteMarkdown)
    ensures failure.Some? ==> failure.value.Raised? && fails(failure.value.op) && failure.value.op != RemoveStage
    ensures failure.None? ==> disk.stage == Some(Fresh(json, markdown))
  {
    if fails(MakeStage) {
      return Some(Raised(MakeStage));
    }
    disk.stage := Some(Report(None, None));
    if fails(WriteJson) {
      return Some(Raised(WriteJson));
    }
    disk.stage := Some(Report(Some(json), None));
    if fails(WriteMarkdown) {
      return Some(Raised(WriteMarkdown));
    }
    disk.stage := Some(Report(Some(json), Some(markdown)));
    failure := None;
  }

  /** The replacement of the output by the stage, with the rollback. */
  method Replace(disk: Disk, remains: Report, fails: Op -> bool) returns (failure: Option<Failure>)
    requires disk.stage.Some? && disk.backup == None
    modifies disk
    ensures failure.None? <==>
      !fails(MoveNew) && (old(disk.output).Some? ==> !fails(MoveOld) && !fails(RemoveBackup))
    ensures disk.output ==
      if old(disk.output).Some? && fails(MoveOld) then old(disk.output)
      else if !fails(MoveNew) then old(disk.stage)
      else if old(disk.output).Some? && fails(Restore) then None
      else old(disk.output)
    ensures failure.Some? ==> failure.value.Raised? && fails(failure.value.op) && failure.value.op != RemoveStage
    ensures !fails(MoveNew) && (old(disk.output).Some? ==> !fails(MoveOld)) ==> disk.stage == None
    ensures disk.output == None && old(disk.output).Some? ==> disk.backup == old(disk.output)
    ensures disk.backup.Some? ==> fails(RemoveBackup) || (fails(MoveNew) && fails(Restore))
    ensures |disk.seen| >= |old(disk.seen)| && disk.seen[..|old(disk.seen)|] == old(disk.seen)
    ensures forall i | |old(disk.seen)| <= i < |disk.seen| ::
      disk.seen[i] == None || disk.seen[i] == old(disk.output) || disk.seen[i] == old(disk.stage)
  {
    if disk.output.Some? {
      if fails(MoveOld) {
        return Some(Raised(MoveOld));
      }
      disk.backup, disk.output := disk.output, None;
      disk.seen := disk.seen + [disk.output];
      if fails(MoveNew) {
        if fails(Restore) {
          return Some(Raised(Restore));
        }
        disk.output, disk.backup := disk.backup, None;
        disk.seen := disk.seen + [disk.output];
        return Some(Raised(MoveNew));
      }
      disk.output, disk.stage := disk.stage, None;
      disk.seen := disk.seen + [disk.output];
      if fails(RemoveBackup) {
        disk.backup := Some(remains);
        return Some(Raised(RemoveBackup));
      }
      disk.backup := None;
    } else {
      if fails(MoveNew) {
        return Some(Raised(MoveNew));
      }
      disk.output, disk.stage := disk.stage, None;
      disk.seen := disk.seen + [disk.output];
    }
    failure := None;
  }

  /**
   The whole publication. The output ends as the complete new report exactly when both moves are
   reached and succeed, as the untouched old state otherwise, and a report that stood there is missing
   exactly when the move and the rollback both failed, so never after a single fault. A failure to
   remove the backup is reported although the new report is in place.
   */
  method Publish(disk: Disk, ours: bool, json: string, markdown: string, remains: Report, fails: Op -> bool)
    returns (failure: Option<Failure>)
    requires disk.stage == None && disk.backup == None
    modifies disk
    ensures disk.output == OutputAfter(old(disk.output), ours, Fresh(json, markdown), fails)
    ensures old(disk.output).Some? ==>
      (disk.output == None <==> ReachesMove(old(disk.output), ours, fails) && fails(MoveNew) && fails(Restore))
    ensures AtMostOne(fails) ==> disk.output in {old(disk.output), Some(Fresh(json, markdown))}
    ensures failure.None? <==>
      ReachesMove(old(disk.output), ours, fails) && !fails(MoveNew) && (old(disk.output).Some? ==> !fails(RemoveBackup))
    ensures disk.output == None && old(disk.output).Some? ==> disk.backup == old(disk.output)
    ensures disk.stage.Some? ==> fails(RemoveStage) && failure.Some? && failure.value.Raised?
    ensures failure.Some? && failure.value.Raised? ==> fails(failure.value.op) && failure.value.op != RemoveStage
    ensures |disk.seen| >= |old(disk.seen)| && forall i | |old(disk.seen)| <= i < |disk.seen| ::
      disk.seen[i] == None || disk.seen[i] == old(disk.output) || disk.seen[i] == Some(Fresh(json, markdown))
  {
    if fails(MakeParent) {
      return Some(Raised(MakeParent));
    }
    if disk.output.Some? && !ours {
      return Some(NotOurs);
    }
    failure := WriteStage(disk, json, markdown, fails);
    if failure.None? {
      failure := Replace(disk, remains, fails);
    }
    if disk.stage.Some? && !fails(RemoveStage) {
      disk.stage := None;
    }
  }

  predicate OneOfNine(op: Op) {
    || op == MakeParent || op == MakeStage || op == WriteJson || op == WriteMarkdown || op == MoveOld || op == MoveNew
    || op == Restore || op == RemoveBackup || op == RemoveStage
  }

  /** It succeeds exactly when nothing else is in the output's place and every operation it needs succeeds. */
  lemma SucceedsExactly(before: Option<Report>, ours: bool, fails: Op -> bool)
    ensures
      (ReachesMove(before, ours, fails) && !fails(MoveNew) && (before.Some? ==> !fails(RemoveBackup))) <==>
      && (before.Some? ==> ours)
      && forall op | fails(op) :: op.Restore? || op.RemoveStage? || (before.None? && (op.MoveOld? || op.RemoveBackup?))
  {
    forall op: Op ensures OneOfNine(op) {
      match op
      case MakeParent | MakeStage | WriteJson | WriteMarkdown | MoveOld | MoveNew | Restore | RemoveBackup | RemoveStage =>
    }
  }
}
