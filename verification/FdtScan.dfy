/**
 Scanning a binary image for flattened device trees. The cursor loop reports exactly the scan
 of the image: valid blobs in order, none overlapping, and no valid header left out.
 */
module FdtScan {
  import opened Wrappers
  import opened ByteCodec

  const MAGIC: seq<Byte> := [0xD0, 0x0D, 0xFE, 0xED]
  const MIN_HEADER: int := 40
  const MAX_DTB: int := 64 * 1024 * 1024

  datatype Found = Found(offset: nat, size: nat, version: nat, lastCompatible: nat) {
    function End(): nat {
      offset + size
    }
  }

  predicate IsMagic(data: seq<Byte>, at: nat) {
    at + 4 <= |data| && data[at..at + 4] == MAGIC
  }

  /** The fields of the header at a position. */
  function HeaderAt(data: seq<Byte>, at: nat): Found
    requires at + MIN_HEADER <= |data|
  {
    Found(at, WordAt(data, at + 4), WordAt(data, at + 20), WordAt(data, at + 24))
  }

  predicate Plausible(h: Found, length: nat) {
    MIN_HEADER <= h.size <= MAX_DTB && h.End() <= length && 1 <= h.version <= 17
  }

  predicate IsValid(data: seq<Byte>, at: nat) {
    IsMagic(data, at) && at + MIN_HEADER <= |data| && Plausible(HeaderAt(data, at), |data|)
  }

  predicate Covers(f: Found, at: nat) {
    f.offset <= at < f.End()
  }

  ghost predicate InOrder(found: seq<Found>) {
    forall i, j | 0 <= i < j < |found| :: found[i].End() <= found[j].offset
  }

  ghost predicate Genuine(data: seq<Byte>, found: seq<Found>) {
    forall i | 0 <= i < |found| :: IsValid(data, found[i].offset) && found[i] == HeaderAt(data, found[i].offset)
  }

  /** Every valid header in front of `limit` is reported or starts inside a reported blob. */
  ghost predicate MissesNothing(data: seq<Byte>, found: seq<Found>, limit: nat) {
    forall at | 0 <= at < limit && IsValid(data, at) :: exists i :: 0 <= i < |found| && Covers(found[i], at)
  }

  ghost predicate IsScan(data: seq<Byte>, found: seq<Found>) {
    Genuine(data, found) && InOrder(found) && MissesNothing(data, found, |data|)
  }

  // ----- an image has one scan -----

  lemma CoveringBlob(data: seq<Byte>, found: seq<Found>, at: nat) returns (j: nat)
    requires MissesNothing(data, found, |data|) && IsValid(data, at)
    ensures j < |found| && Covers(found[j], at)
  {
    j :| 0 <= j < |found| && Covers(found[j], at);
  }

  lemma GenuineAt(data: seq<Byte>, found: seq<Found>, i: nat)
    requires Genuine(data, found) && i < |found|
    ensures IsValid(data, found[i].offset)
  {
    hide IsValid, HeaderAt;
  }

  lemma OrderAt(found: seq<Found>, i: nat, j: nat)
    requires InOrder(found) && i < j < |found|
    ensures found[i].End() <= found[j].offset
  {
  }

  /** A reported blob does not start in front of the next one of any other scan. */
  lemma NotBefore(data: seq<Byte>, b: seq<Found>, k: nat, at: nat)
    requires IsScan(data, b) && IsValid(data, at) && k <= |b|
    requires forall i | 0 <= i < k :: b[i].End() <= at
    ensures k < |b| && b[k].offset <= at
  {
    hide IsValid, InOrder, MissesNothing, Genuine;
    var j := CoveringBlob(data, b, at);
    assert j >= k;
    if k < j {
      OrderAt(b, k, j);
    }
  }

  lemma NextNotBefore(data: seq<Byte>, a: seq<Found>, b: seq<Found>, k: nat)
    requires IsScan(data, a) && IsScan(data, b) && k < |a| && k <= |b|
    requires forall i | 0 <= i < k :: b[i] == a[i]
    ensures k < |b| && b[k].offset <= a[k].offset
  {
    GenuineAt(data, a, k);
    hide IsValid, InOrder, MissesNothing, Genuine;
    forall i | 0 <= i < k ensures b[i].End() <= a[k].offset {
      OrderAt(a, i, k);
    }
    NotBefore(data, b, k, a[k].offset);
  }

  lemma SameHeader(data: seq<Byte>, a: seq<Found>, b: seq<Found>, k: nat)
    requires IsScan(data, a) && IsScan(data, b) && k < |a| && k < |b| && a[k].offset == b[k].offset
    ensures a[k] == b[k]
  {
    hide IsMagic, WordAt;
  }

  lemma {:induction false} SameUpTo(data: seq<Byte>, a: seq<Found>, b: seq<Found>, k: nat)
    requires IsScan(data, a) && IsScan(data, b) && k <= |a|
    ensures k <= |b| && forall i | 0 <= i < k :: b[i] == a[i]
  {
    hide IsScan;
    if k > 0 {
      SameUpTo(data, a, b, k - 1);
      NextNotBefore(data, a, b, k - 1);
      NextNotBefore(data, b, a, k - 1);
      SameHeader(data, a, b, k - 1);
    }
  }

  /** The three conditions determine the report. */
  lemma ScanIsUnique(data: seq<Byte>, a: seq<Found>, b: seq<Found>)
    requires IsScan(data, a) && IsScan(data, b)
    ensures a == b
  {
    SameUpTo(data, a, b, |a|);
    SameUpTo(data, b, a, |b|);
  }

  // ----- the cursor loop -----

  /** The four bytes of the magic differ, so no two occurrences overlap. */
  lemma MagicDoesNotOverlap(data: seq<Byte>, at: nat, k: nat)
    requires IsMagic(data, at) && 0 < k < 4
    ensures !IsMagic(data, at + k)
  {
    assert data[at + k] == data[at..at + 4][k] == MAGIC[k] != MAGIC[0];
    if at + k + 4 <= |data| {
      assert data[at + k..at + k + 4][0] == data[at + k];
    }
  }

  /** `data.find(FDT_MAGIC, cursor)` */
  method Find(data: seq<Byte>, cursor: nat) returns (r: Option<nat>)
    ensures r.Some? ==>
      && cursor <= r.value && IsMagic(data, r.value)
      && forall at | cursor <= at < r.value :: !IsMagic(data, at)
    ensures r.None? ==> forall at | cursor <= at :: !IsMagic(data, at)
  {
    var at := cursor;
    while at + 4 <= |data|
      invariant cursor <= at
      invariant forall k | cursor <= k < at :: !IsMagic(data, k)
    {
      if data[at..at + 4] == MAGIC {
        return Some(at);
      }
      at := at + 1;
    }
    r := None;
  }

  lemma Skipped(data: seq<Byte>, found: seq<Found>, cursor: nat, offset: nat)
    requires MissesNothing(data, found, cursor) && cursor <= offset && IsMagic(data, offset) && !IsValid(data, offset)
    requires forall at | cursor <= at < offset :: !IsMagic(data, at)
    ensures MissesNothing(data, found, offset + 4)
  {
    forall at | 0 <= at < offset + 4 && IsValid(data, at)
      ensures exists i :: 0 <= i < |found| && Covers(found[i], at)
    {
      if at > offset {
        MagicDoesNotOverlap(data, offset, at - offset);
      }
    }
  }

  lemma Reported(data: seq<Byte>, found: seq<Found>, cursor: nat, f: Found)
    requires MissesNothing(data, found, cursor) && cursor <= f.offset
    requires forall at | cursor <= at < f.offset :: !IsMagic(data, at)
    ensures MissesNothing(data, found + [f], f.End())
  {
    hide IsMagic;
    var more := found + [f];
    forall at | 0 <= at < f.End() && IsValid(data, at)
      ensures exists i :: 0 <= i < |more| && Covers(more[i], at)
    {
      if at < f.offset {
        var i :| 0 <= i < |found| && Covers(found[i], at);
        assert Covers(more[i], at);
      } else {
        assert Covers(more[|found|], at);
      }
    }
  }

  lemma NoneLeft(data: seq<Byte>, found: seq<Found>, cursor: nat)
    requires MissesNothing(data, found, cursor) && forall at | cursor <= at :: !IsMagic(data, at)
    ensures MissesNothing(data, found, |data|)
  {
  }

  /** The loop reports the scan of the image, reading only inside it. */
  method Scan(data: seq<Byte>) returns (found: seq<Found>)
    ensures IsScan(data, found)
  {
    hide IsMagic, MissesNothing, IsValid;
    found := [];
    var cursor := 0;
    MissesNothingYet(data);
    while true
      invariant Genuine(data, found) && InOrder(found) && MissesNothing(data, found, cursor)
      invariant forall i | 0 <= i < |found| :: found[i].End() <= cursor
      invariant cursor <= |data|
      decreases |data| - cursor
    {
      var next := Find(data, cursor);
      if next.None? {
        NoneLeft(data, found, cursor);
        break;
      }
      var offset := next.value;
      MagicIsInside(data, offset);
      Validity(data, offset);
      if offset + MIN_HEADER > |data| {
        Skipped(data, found, cursor, offset);
        cursor := offset + 4;
        continue;
      }
      var totalSize := WordAt(data, offset + 4);
      var version := WordAt(data, offset + 20);
      var lastCompatible := WordAt(data, offset + 24);
      if !(MIN_HEADER <= totalSize <= MAX_DTB) || offset + totalSize > |data| || !(1 <= version <= 17) {
        Skipped(data, found, cursor, offset);
        cursor := offset + 4;
        continue;
      }
      var f := Found(offset, totalSize, version, lastCompatible);
      Reported(data, found, cursor, f);
      found := found + [f];
      cursor := offset + totalSize;
    }
  }

  lemma MissesNothingYet(data: seq<Byte>)
    ensures MissesNothing(data, [], 0)
  {
  }

  lemma MagicIsInside(data: seq<Byte>, at: nat)
    requires IsMagic(data, at)
    ensures at + 4 <= |data|
  {
  }

  lemma Validity(data: seq<Byte>, at: nat)
    requires IsMagic(data, at)
    ensures IsValid(data, at) <==> at + MIN_HEADER <= |data| && Plausible(HeaderAt(data, at), |data|)
  {
    hide IsMagic;
  }

  // ----- the report, word by word -----

  lemma WordOfHeader(data: seq<Byte>, at: nat, ws: seq<int>, k: nat)
    requires |ws| == 10 && AllFit(ws) && at + 40 <= |data| && data[at..at + 40] == Words(ws) && k < 10
    ensures WordAt(data, at + 4 * k) == ws[k]
  {
    hide WordAt, Words;
    WordsAt(ws, k);
    WordInSlice(data, at, 4 * k, 40);
  }

  lemma MagicWord(data: seq<Byte>, at: nat)
    requires at + 4 <= |data|
    ensures IsMagic(data, at) <==> WordAt(data, at) == 0xD00D_FEED
  {
    var s := data[at..at + 4];
    assert forall k | 0 <= k < 4 :: s[k] == data[at + k];
    if WordAt(data, at) == 0xD00D_FEED {
      assert s == MAGIC;
    }
  }

  /** The blob at a position is clear of every one reported in front of it. */
  predicate Clear(found: seq<Found>, at: nat) {
    forall i | 0 <= i < |found| && found[i].offset < at :: found[i].offset + found[i].size <= at
  }

  /**
   Ten words at a position are reported as a device tree exactly when they start with the magic, their
   second is a size within the limits and the image, their sixth a version from 1 to 17, and the position
   is clear of the blobs in front; the report is then that size and the sixth and seventh word.
   */
  lemma HeaderReported(data: seq<Byte>, found: seq<Found>, at: nat, ws: seq<int>)
    requires IsScan(data, found)
    requires |ws| == 10 && AllFit(ws) && at + 40 <= |data| && data[at..at + 40] == Words(ws)
    ensures (exists f :: f in found && f.offset == at) <==>
      && ws[0] == 0xD00D_FEED && 40 <= ws[1] <= 67_108_864 && at + ws[1] <= |data| && 1 <= ws[5] <= 17
      && Clear(found, at)
    ensures forall f | f in found && f.offset == at :: f == Found(at, ws[1], ws[5], ws[6])
  {
    WordOfHeader(data, at, ws, 0);
    WordOfHeader(data, at, ws, 1);
    WordOfHeader(data, at, ws, 5);
    WordOfHeader(data, at, ws, 6);
    MagicWord(data, at);
    assert HeaderAt(data, at) == Found(at, ws[1], ws[5], ws[6]);
    hide WordAt, Words, IsMagic, HeaderAt, MissesNothing;
    forall f | f in found && f.offset == at ensures f == Found(at, ws[1], ws[5], ws[6]) && IsValid(data, at) && Clear(found, at) {
      var i :| 0 <= i < |found| && found[i] == f;
      ClearInOrder(found, i);
    }
    if IsValid(data, at) && Clear(found, at) {
      var j := CoveringBlob(data, found, at);
      assert found[j] in found;
    }
  }

  lemma ClearInOrder(found: seq<Found>, i: nat)
    requires InOrder(found) && i < |found|
    ensures Clear(found, found[i].offset)
  {
  }
}
