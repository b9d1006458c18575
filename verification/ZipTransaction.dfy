/**
 Extraction of a validated archive as a transaction: everything goes into a private stage that one
 rename publishes. Any operation may fail; the destination is untouched or complete.
 */
module ZipTransaction {
  import opened Wrappers

  /** Extracted files by name, with their digests. */
  type Files = map<string, string>

  datatype Member = Member(name: string, digest: string)

  /** What the validation pass recorded, and what the extraction pass meets. */
  datatype Listing = Listing(digest: string, members: seq<Member>)

  datatype Op =
    | OpenArchive | ReadDirectory | MakeStage | Consume(index: nat) | WriteManifest | ChmodManifest
    | CloseStage | RecheckArchive | Rename | CloseParent | Cleanup

  datatype Failure = Raised(op: Op) | ArchiveChanged | MemberChanged(index: nat) | DestinationExists

  const MANIFEST: string := ".safe-zip-manifest.json"

  function FilesOf(members: seq<Member>): Files {
    if members == [] then map[]
    else FilesOf(members[..|members| - 1])[members[|members| - 1].name := members[|members| - 1].digest]
  }

  /** A complete extraction: every member and the manifest. */
  function Complete(expected: Listing, manifest: string): Files {
    FilesOf(expected.members)[MANIFEST := manifest]
  }

  function Names(members: seq<Member>): seq<string> {
    seq(|members|, i requires 0 <= i < |members| => members[i].name)
  }

  /** `{name: member for member in members}[name]`: the last of equal names. */
  function ExpectedDigest(members: seq<Member>, name: string): Option<string> {
    if members == [] then None
    else if members[|members| - 1].name == name then Some(members[|members| - 1].digest)
    else ExpectedDigest(members[..|members| - 1], name)
  }

  /** The directory the run works in. `seen` notes every state of the destination. */
  class Host {
    var destination: Option<Files>
    var stage: Option<Files>
    ghost var seen: seq<Option<Files>>

    constructor (destination: Option<Files>)
      ensures this.destination == destination && stage == None && seen == []
    {
      this.destination, stage, seen := destination, None, [];
    }
  }

  /** Member `i` of the archive met can be consumed, and is the one that was recorded. */
  predicate Consumes(expected: Listing, actual: Listing, fails: Op -> bool, i: nat)
    requires i < |actual.members|
  {
    !fails(Consume(i)) && ExpectedDigest(expected.members, actual.members[i].name) == Some(actual.members[i].digest)
  }

  predicate AllConsume(expected: Listing, actual: Listing, fails: Op -> bool) {
    forall i | 0 <= i < |actual.members| :: Consumes(expected, actual, fails, i)
  }

  /** Nothing in the environment stands in the way of a complete stage. */
  predicate Prepared(expected: Listing, actual: Listing, fails: Op -> bool) {
    && !fails(OpenArchive) && actual.digest == expected.digest
    && !fails(ReadDirectory) && Names(actual.members) == Names(expected.members)
    && !fails(MakeStage) && AllConsume(expected, actual, fails)
    && !fails(WriteManifest) && !fails(ChmodManifest) && !fails(CloseStage) && !fails(RecheckArchive)
  }

  /** Nor in the way of the rename. */
  predicate Undisturbed(expected: Listing, actual: Listing, fails: Op -> bool) {
    Prepared(expected, actual, fails) && !fails(Rename)
  }

  /** The members are consumed in order; each must have the digest the validation recorded. */
  method ConsumeMembers(host: Host, expected: Listing, actual: Listing, fails: Op -> bool)
    returns (failure: Option<Failure>)
    requires host.stage == Some(map[])
    modifies host`stage
    ensures failure.None? <==> AllConsume(expected, actual, fails)
    ensures failure.None? ==> host.stage == Some(FilesOf(actual.members))
    ensures failure.Some? && failure.value.Raised? ==> failure.value.op.Consume?
    ensures host.stage.Some?
  {
    for i := 0 to |actual.members|
      invariant forall j | 0 <= j < i :: Consumes(expected, actual, fails, j)
      invariant host.stage == Some(FilesOf(actual.members[..i]))
    {
      var m := actual.members[i];
      assert Consumes(expected, actual, fails, i) <==>
        !fails(Consume(i)) && ExpectedDigest(expected.members, m.name) == Some(m.digest);
      if fails(Consume(i)) {
        return Some(Raised(Consume(i)));
      }
      assert actual.members[..i + 1][..i] == actual.members[..i];
      host.stage := Some(host.stage.value[m.name := m.digest]);
      if ExpectedDigest(expected.members, m.name) != Some(m.digest) {
        return Some(MemberChanged(i));
      }
    }
    assert actual.members[..|actual.members|] == actual.members;
    failure := None;
  }

  /** Everything in front of the rename: the stage receives the members and the manifest. */
  method FillStage(host: Host, expected: Listing, actual: Listing, manifest: string, fails: Op -> bool)
    returns (failure: Option<Failure>)
    requires host.stage == None
    modifies host`stage
    ensures failure.None? <==> Prepared(expected, actual, fails)
    ensures failure.None? ==> host.stage == Some(FilesOf(actual.members)[MANIFEST := manifest])
    ensures failure != Some(Raised(CloseParent))
  {
    hide AllConsume, FilesOf, Names;
    if fails(OpenArchive) {
      return Some(Raised(OpenArchive));
    }
    if actual.digest != expected.digest {
      return Some(ArchiveChanged);
    }
    if fails(ReadDirectory) {
      return Some(Raised(ReadDirectory));
    }
    if Names(actual.members) != Names(expected.members) {
      return Some(ArchiveChanged);
    }
    if fails(MakeStage) {
      return Some(Raised(MakeStage));
    }
    host.stage := Some(map[]);
    failure := ConsumeMembers(host, expected, actual, fails);
    if failure.Some? {
      return;
    }
    if fails(WriteManifest) {
      return Some(Raised(WriteManifest));
    }
    host.stage := Some(host.stage.value[MANIFEST := manifest]);
    if fails(ChmodManifest) {
      return Some(Raised(ChmodManifest));
    }
    if fails(CloseStage) {
      return Some(Raised(CloseStage));
    }
    if fails(RecheckArchive) {
      return Some(Raised(RecheckArchive));
    }
  }

  /** The body of the transaction. */
  method Attempt(host: Host, expected: Listing, actual: Listing, manifest: string, fails: Op -> bool)
    returns (failure: Option<Failure>)
    requires host.stage == None
    modifies host
    ensures
      var published := Undisturbed(expected, actual, fails) && old(host.destination) == None;
      && (failure.None? <==> published && !fails(CloseParent))
      && (failure == Some(Raised(CloseParent)) <==> published && fails(CloseParent))
      && (published ==>
            && host.destination == Some(FilesOf(actual.members)[MANIFEST := manifest]) && host.stage == None
            && host.seen == old(host.seen) + [host.destination])
      && (!published ==> host.destination == old(host.destination) && host.seen == old(host.seen))
  {
    hide Prepared, FilesOf;
    failure := FillStage(host, expected, actual, manifest, fails);
    if failure.Some? {
      return;
    }
    if host.destination.Some? {
      return Some(DestinationExists);
    }
    if fails(Rename) {
      return Some(Raised(Rename));
    }
    host.destination := host.stage;
    host.stage := None;
    host.seen := host.seen + [host.destination];
    failure := if fails(CloseParent) then Some(Raised(CloseParent)) else None;
  }

  lemma {:induction false} SameNamesSameFiles(a: seq<Member>, b: seq<Member>, all: seq<Member>)
    requires |a| == |b| <= |all| && b == all[..|b|]
    requires forall i, j | 0 <= i < j < |all| :: all[i].name != all[j].name
    requires forall i | 0 <= i < |a| :: a[i].name == b[i].name && ExpectedDigest(all, a[i].name) == Some(a[i].digest)
    ensures FilesOf(a) == FilesOf(b)
  {
    if a != [] {
      var n := |a| - 1;
      assert all[..n] == b[..n];
      SameNamesSameFiles(a[..n], b[..n], all);
      DigestAt(all, n);
    }
  }

  lemma {:induction false} DigestAt(all: seq<Member>, i: nat)
    requires i < |all| && forall j, k | 0 <= j < k < |all| :: all[j].name != all[k].name
    ensures ExpectedDigest(all, all[i].name) == Some(all[i].digest)
  {
    if i < |all| - 1 {
      var front := all[..|all| - 1];
      DigestAt(front, i);
      assert front[i] == all[i] && all[i].name != all[|all| - 1].name;
    }
  }

  /**
   The transaction. The destination receives the recorded members and the manifest exactly in an
   undisturbed run with no destination in place, and is left as it was in every other. A failure
   with the destination in place can only come from closing its parent directory after the rename;
   no stage stays behind unless its removal fails as well, and the destination was never in a
   third state.
   */
  method ExtractArchive(host: Host, expected: Listing, actual: Listing, manifest: string, fails: Op -> bool)
    returns (failure: Option<Failure>)
    requires host.stage == None
    requires forall i, j | 0 <= i < j < |expected.members| :: expected.members[i].name != expected.members[j].name
    modifies host
    ensures host.destination ==
      if Undisturbed(expected, actual, fails) && old(host.destination) == None then Some(Complete(expected, manifest))
      else old(host.destination)
    ensures failure.None? <==>
      Undisturbed(expected, actual, fails) && old(host.destination) == None && !fails(CloseParent)
    ensures failure.Some? && host.destination != old(host.destination) ==> failure == Some(Raised(CloseParent))
    ensures failure.None? ==> host.stage == None
    ensures host.stage.Some? ==> fails(Cleanup)
    ensures forall i | |old(host.seen)| <= i < |host.seen| :: host.seen[i] == Some(Complete(expected, manifest))
  {
    failure := Attempt(host, expected, actual, manifest, fails);
    if Undisturbed(expected, actual, fails) {
      var a, b := actual.members, expected.members;
      assert |Names(a)| == |a| && |Names(b)| == |b|;
      forall i | 0 <= i < |a|
        ensures a[i].name == b[i].name && ExpectedDigest(b, a[i].name) == Some(a[i].digest)
      {
        assert Names(a)[i] == Names(b)[i] && Consumes(expected, actual, fails, i);
      }
      assert b[..|b|] == b;
      SameNamesSameFiles(a, b, b);
    }
    if host.stage.Some? && !fails(Cleanup) {
      host.stage := None;
    }
  }

  /**
   Nothing disturbs a run exactly when the archive met is the one recorded, and at most the last close or
   the removal of the stage fails.
   */
  lemma UndisturbedExactly(expected: Listing, actual: Listing, fails: Op -> bool)
    requires forall i, j | 0 <= i < j < |expected.members| :: expected.members[i].name != expected.members[j].name
    ensures Undisturbed(expected, actual, fails) <==>
      && actual == expected
      && forall op | fails(op) :: op in {CloseParent, Cleanup} || (op.Consume? && op.index >= |actual.members|)
  {
    var a, b := actual.members, expected.members;
    assert |Names(a)| == |a| && |Names(b)| == |b|;
    if Undisturbed(expected, actual, fails) {
      forall i | 0 <= i < |a| ensures a[i] == b[i] {
        assert Names(a)[i] == Names(b)[i] && Consumes(expected, actual, fails, i);
        DigestAt(b, i);
      }
      assert forall i | 0 <= i < |a| :: Consumes(expected, actual, fails, i) && !fails(Consume(i));
    }
    if actual == expected {
      forall i | 0 <= i < |a| ensures ExpectedDigest(b, a[i].name) == Some(a[i].digest) {
        DigestAt(b, i);
      }
    }
  }
}
