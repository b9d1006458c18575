/** The records the observer writes and the analyzer reads. */
module ClockRecords {
  import opened JsonValues

  datatype Record = Record(
    recordType: JVal,
    trialId: JVal,
    sequence: JVal,
    mono: JVal,
    boot: JVal,
    offset: JVal,
    gap: JVal,
    elapsedMono: JVal,
    elapsedBoot: JVal,
    delta: JVal,
    span: JVal,
    cpu: JVal,
    bootId: JVal,
    bootStatus: JVal,
    cgroupStatus: JVal,
    frozen: JVal,
    populated: JVal,
    // metadata only
    monoResolution: JVal,
    bootResolution: JVal,
    intervalMs: JVal,
    bindingStatus: JVal,
    cgroupPath: JVal,
    trialPid: JVal,
    startTicks: JVal,
    // end only
    sampleCount: JVal,
    termination: JVal)

  const EMPTY: Record := Record(
    Absent, Absent, Absent, Absent, Absent, Absent, Absent, Absent, Absent, Absent, Absent, Absent, Absent,
    Absent, Absent, Absent, Absent, Absent, Absent, Absent, Absent, Absent, Absent, Absent, Absent, Absent)

  predicate IsKind(r: Record, kind: string) {
    r.recordType == Str(kind)
  }
}
