/**
 The DTBO extractor: every check in the source's order, over a container read from a byte
 string. Acceptance is described twice, by the checks in order and by what an accepted
 container is, and the two agree.
 */
module DtboExtract {
  import opened Wrappers
  import opened ByteCodec
  import opened DtboPack

  const FDT_MAGIC: int := 0xD00DFEED
  const FDT_HEADER_SIZE: int := 40

  datatype Header = Header(
    totalSize: nat, headerSize: nat, entrySize: nat, entryCount: nat, entriesOffset: nat, pageSize: nat, version: nat)

  datatype Entry = Entry(size: nat, offset: nat, id: nat, rev: nat, custom: seq<nat>) {
    function End(): nat {
      offset + size
    }

    predicate Holds(at: nat) {
      offset <= at < End()
    }

    /** The positions in the image the payload occupies. */
    ghost function Span(): set<nat> {
      set at: nat | at < End() && Holds(at)
    }
  }

  datatype Extracted = Extracted(header: Header, entries: seq<Entry>, blobs: seq<Blob>)

  datatype ExtractError =
    | TooSmall
    | BadMagic
    | BadHeader
    | BadTable
    | EntryBounds(index: nat)
    | EntryMagic(index: nat)
    | EntryFdtSize(index: nat)
    | EntryOverlap(index: nat)

  // ----- the header -----

  function HeaderOf(data: seq<Byte>): Header
    requires |data| >= STRUCT_SIZE
  {
    var f := Fields(data, 0);
    Header(f[1], f[2], f[3], f[4], f[5], f[6], f[7])
  }

  predicate Coherent(h: Header, length: nat) {
    && STRUCT_SIZE <= h.totalSize <= length
    && STRUCT_SIZE <= h.headerSize <= h.totalSize
    && h.entrySize >= STRUCT_SIZE
    && h.entryCount != 0
    && PowerOfTwo(h.pageSize)
  }

  function EntriesEnd(h: Header): nat {
    h.entriesOffset + h.entryCount * h.entrySize
  }

  predicate TableFits(h: Header) {
    h.headerSize <= h.entriesOffset && EntriesEnd(h) <= h.totalSize
  }

  predicate HeaderOk(data: seq<Byte>) {
    && |data| >= STRUCT_SIZE && Fields(data, 0)[0] == MAGIC
    && Coherent(HeaderOf(data), |data|) && TableFits(HeaderOf(data))
  }

  // ----- the entries -----

  function RowAt(h: Header, i: nat): nat {
    h.entriesOffset + i * h.entrySize
  }

  lemma RowInside(h: Header, i: nat)
    requires i < h.entryCount && h.entrySize >= STRUCT_SIZE
    ensures RowAt(h, i) + h.entrySize <= EntriesEnd(h)
  {
    RowEndsInside(i, h.entryCount, h.entrySize);
  }

  function EntryAt(data: seq<Byte>, i: nat): (r: Entry)
    requires HeaderOk(data) && i < HeaderOf(data).entryCount
    ensures |r.custom| == 4
  {
    RowInside(HeaderOf(data), i);
    var f := Fields(data, RowAt(HeaderOf(data), i));
    Entry(f[0], f[1], f[2], f[3], f[4..])
  }

  predicate InBounds(h: Header, e: Entry) {
    e.size >= FDT_HEADER_SIZE && EntriesEnd(h) <= e.offset && e.End() <= h.totalSize
  }

  function BlobAt(data: seq<Byte>, i: nat): (r: Blob)
    requires HeaderOk(data) && i < HeaderOf(data).entryCount && InBounds(HeaderOf(data), EntryAt(data, i))
    ensures |r| == EntryAt(data, i).size
  {
    data[EntryAt(data, i).offset..EntryAt(data, i).End()]
  }

  predicate SizeDeclared(blob: Blob)
    requires |blob| >= FDT_HEADER_SIZE
  {
    FDT_HEADER_SIZE <= WordAt(blob, 4) <= |blob|
  }

  /** A blob that starts with a flattened device-tree header whose size fits the blob. */
  predicate IsFdt(blob: Blob) {
    |blob| >= FDT_HEADER_SIZE && WordAt(blob, 0) == FDT_MAGIC && SizeDeclared(blob)
  }

  predicate Overlap(a: Entry, b: Entry) {
    a.offset < b.End() && b.offset < a.End()
  }

  predicate OverlapsEarlier(es: seq<Entry>, i: nat)
    requires i < |es|
  {
    exists j | 0 <= j < i :: Overlap(es[i], es[j])
  }

  /** All table entries, whatever they hold. */
  function EntriesOf(data: seq<Byte>): (r: seq<Entry>)
    requires HeaderOk(data)
    ensures |r| == HeaderOf(data).entryCount && forall i | 0 <= i < |r| :: r[i] == EntryAt(data, i)
  {
    seq(HeaderOf(data).entryCount, i requires 0 <= i < HeaderOf(data).entryCount => EntryAt(data, i))
  }

  /** What the checks say about entry `i`, in their order. */
  function EntryError(data: seq<Byte>, i: nat): Option<ExtractError>
    requires HeaderOk(data) && i < HeaderOf(data).entryCount
  {
    if !InBounds(HeaderOf(data), EntryAt(data, i)) then Some(EntryBounds(i))
    else if WordAt(BlobAt(data, i), 0) != FDT_MAGIC then Some(EntryMagic(i))
    else if !SizeDeclared(BlobAt(data, i)) then Some(EntryFdtSize(i))
    else if OverlapsEarlier(EntriesOf(data), i) then Some(EntryOverlap(i))
    else None
  }

  function FirstError(data: seq<Byte>, i: nat): Option<ExtractError>
    requires HeaderOk(data) && i <= HeaderOf(data).entryCount
    decreases HeaderOf(data).entryCount - i
  {
    if i == HeaderOf(data).entryCount then None
    else if EntryError(data, i).Some? then EntryError(data, i)
    else FirstError(data, i + 1)
  }

  lemma {:induction false} FirstErrorNone(data: seq<Byte>, i: nat)
    requires HeaderOk(data) && i <= HeaderOf(data).entryCount
    ensures FirstError(data, i).None? <==>
      forall k | i <= k < HeaderOf(data).entryCount :: EntryError(data, k).None?
    decreases HeaderOf(data).entryCount - i
  {
    hide EntryError, Fields, PowerOfTwo;
    if i < HeaderOf(data).entryCount {
      FirstErrorNone(data, i + 1);
    }
  }

  function BlobsOf(data: seq<Byte>, n: nat): (r: seq<Blob>)
    requires HeaderOk(data) && n <= HeaderOf(data).entryCount
    requires forall i | 0 <= i < n :: InBounds(HeaderOf(data), EntryAt(data, i))
    ensures |r| == n && forall i | 0 <= i < n :: r[i] == BlobAt(data, i)
  {
    seq(n, i requires 0 <= i < n => BlobAt(data, i))
  }

  function ExtractResult(data: seq<Byte>): Result<Extracted, ExtractError> {
    if |data| < STRUCT_SIZE then Err(TooSmall)
    else if Fields(data, 0)[0] != MAGIC then Err(BadMagic)
    else if !Coherent(HeaderOf(data), |data|) then Err(BadHeader)
    else if !TableFits(HeaderOf(data)) then Err(BadTable)
    else
      var n := HeaderOf(data).entryCount;
      match FirstError(data, 0)
      case Some(e) => Err(e)
      case None =>
        FirstErrorNone(data, 0);
        assert forall i | 0 <= i < n :: EntryError(data, i).None? ==> InBounds(HeaderOf(data), EntryAt(data, i));
        Ok(Extracted(HeaderOf(data), EntriesOf(data), BlobsOf(data, n)))
  }

  // ----- what is accepted -----

  /** No two payloads share a byte. */
  ghost predicate Disjoint(es: seq<Entry>) {
    forall i, j | 0 <= i < j < |es| :: es[i].Span() !! es[j].Span()
  }

  /** Payload `i` lies inside the container and is a device tree. */
  predicate GoodPayload(data: seq<Byte>, i: nat)
    requires HeaderOk(data) && i < HeaderOf(data).entryCount
  {
    InBounds(HeaderOf(data), EntryAt(data, i)) && IsFdt(BlobAt(data, i))
  }

  /** A container: a sound header, payloads that are device trees, and no two that share a byte. */
  ghost predicate IsContainer(data: seq<Byte>) {
    && HeaderOk(data)
    && (forall i | 0 <= i < HeaderOf(data).entryCount :: GoodPayload(data, i))
    && Disjoint(EntriesOf(data))
  }

  lemma OverlapSharesByte(a: Entry, b: Entry)
    requires a.size > 0 && b.size > 0
    ensures !Overlap(a, b) <==> a.Span() !! b.Span()
  {
    if Overlap(a, b) {
      var at := if a.offset < b.offset then b.offset else a.offset;
      assert at in a.Span() && at in b.Span();
    }
  }

  lemma CleanEntry(data: seq<Byte>, i: nat)
    requires HeaderOk(data) && i < HeaderOf(data).entryCount
    ensures EntryError(data, i).None? <==>
      GoodPayload(data, i) && !OverlapsEarlier(EntriesOf(data), i)
  {
    hide Fields, PowerOfTwo, OverlapsEarlier, WordAt, EntryAt;
  }

  lemma NoOverlaps(es: seq<Entry>)
    requires forall i | 0 <= i < |es| :: es[i].size > 0
    ensures (forall j | 0 <= j < |es| :: !OverlapsEarlier(es, j)) <==> Disjoint(es)
  {
    hide Overlap, Entry.Span;
    forall i, j | 0 <= i < j < |es|
      ensures !Overlap(es[j], es[i]) <==> es[i].Span() !! es[j].Span()
    {
      OverlapSharesByte(es[j], es[i]);
    }
    if forall j | 0 <= j < |es| :: !OverlapsEarlier(es, j) {
      forall i, j | 0 <= i < j < |es| ensures es[i].Span() !! es[j].Span() {
        assert !OverlapsEarlier(es, j);
      }
    }
  }

  /** The checks accept exactly the containers. */
  lemma ExtractsExactly(data: seq<Byte>)
    ensures ExtractResult(data).Ok? <==> IsContainer(data)
  {
    hide FirstError, Fields, WordAt, PowerOfTwo, OverlapsEarlier, EntryError, IsFdt, Disjoint, EntryAt, BlobAt;
    if HeaderOk(data) {
      var n := HeaderOf(data).entryCount;
      FirstErrorNone(data, 0);
      forall i | 0 <= i < n
        ensures GoodPayload(data, i) ==> InBounds(HeaderOf(data), EntryAt(data, i))
        ensures EntryError(data, i).None? <==>
          GoodPayload(data, i) && !OverlapsEarlier(EntriesOf(data), i)
      {
        CleanEntry(data, i);
      }
      if forall i | 0 <= i < n :: InBounds(HeaderOf(data), EntryAt(data, i)) {
        NoOverlaps(EntriesOf(data));
      }
    }
  }

  lemma GoodIsInBounds(data: seq<Byte>, i: nat)
    requires HeaderOk(data) && i < HeaderOf(data).entryCount && GoodPayload(data, i)
    ensures InBounds(HeaderOf(data), EntryAt(data, i))
  {
    hide HeaderOk, HeaderOf, EntryAt, IsFdt;
  }

  lemma ContainerInBounds(data: seq<Byte>)
    requires IsContainer(data)
    ensures forall i | 0 <= i < HeaderOf(data).entryCount :: InBounds(HeaderOf(data), EntryAt(data, i))
  {
    hide HeaderOf, EntryAt, InBounds, GoodPayload, Disjoint, Fields, PowerOfTwo;
    forall i | 0 <= i < HeaderOf(data).entryCount ensures InBounds(HeaderOf(data), EntryAt(data, i)) {
      GoodIsInBounds(data, i);
    }
  }

  /** What a container holds. */
  ghost function ContentsOf(data: seq<Byte>): Extracted
    requires IsContainer(data)
  {
    ContainerInBounds(data);
    Extracted(HeaderOf(data), EntriesOf(data), BlobsOf(data, HeaderOf(data).entryCount))
  }

  lemma ExtractsContents(data: seq<Byte>)
    requires IsContainer(data)
    ensures ExtractResult(data) == Ok(ContentsOf(data))
  {
    ExtractsExactly(data);
    hide HeaderOk, EntryAt, BlobAt, InBounds, GoodPayload, Disjoint, FirstError, IsContainer, PowerOfTwo, Fields;
  }

  // ----- the loop -----

  method ReadHeader(data: seq<Byte>) returns (r: Result<Header, ExtractError>)
    ensures HeaderOk(data) ==> r == Ok(HeaderOf(data))
    ensures !HeaderOk(data) ==> r.Err? && ExtractResult(data) == Err(r.error)
  {
    hide Fields, PowerOfTwo, BitAnd, FirstError;
    if |data| < STRUCT_SIZE {
      return Err(TooSmall);
    }
    var f := Fields(data, 0);
    if f[0] != MAGIC {
      return Err(BadMagic);
    }
    var h := Header(f[1], f[2], f[3], f[4], f[5], f[6], f[7]);
    if h.pageSize > 0 {
      PowerOfTwoExactly(h.pageSize);
    }
    NotPowerOfTwo();
    if h.totalSize > |data| || h.totalSize < STRUCT_SIZE || h.headerSize < STRUCT_SIZE || h.headerSize > h.totalSize
       || h.entrySize < STRUCT_SIZE || h.entryCount == 0 || h.pageSize == 0 || BitAnd(h.pageSize, h.pageSize - 1) != 0
    {
      return Err(BadHeader);
    }
    var tableEnd := h.entriesOffset + h.entryCount * h.entrySize;
    if h.entriesOffset < h.headerSize || tableEnd > h.totalSize {
      return Err(BadTable);
    }
    r := Ok(h);
  }

  /** The checks of one turn, against the payload intervals of the turns before it. */
  method CheckEntry(data: seq<Byte>, h: Header, index: nat, intervals: seq<(nat, nat)>)
    returns (r: Result<(Entry, Blob), ExtractError>)
    requires HeaderOk(data) && h == HeaderOf(data) && index < h.entryCount
    requires |intervals| == index
    requires forall i | 0 <= i < index :: intervals[i] == (EntryAt(data, i).offset, EntryAt(data, i).End())
    ensures r.Err? ==> EntryError(data, index) == Some(r.error)
    ensures r.Ok? ==>
      && EntryError(data, index) == None && InBounds(h, EntryAt(data, index))
      && r.value == (EntryAt(data, index), BlobAt(data, index))
  {
    hide Fields, WordAt, PowerOfTwo, EntryAt;
    var entry := ReadEntry(data, h, index);
    if entry.size < FDT_HEADER_SIZE || entry.offset < EntriesEnd(h) || entry.End() > h.totalSize {
      return Err(EntryBounds(index));
    }
    var blob := data[entry.offset..entry.End()];
    if WordAt(blob, 0) != FDT_MAGIC {
      return Err(EntryMagic(index));
    }
    var fdtTotalSize := WordAt(blob, 4);
    if fdtTotalSize < FDT_HEADER_SIZE || fdtTotalSize > entry.size {
      return Err(EntryFdtSize(index));
    }
    var overlaps := Overlaps(intervals, entry.offset, entry.End());
    assert overlaps <==> OverlapsEarlier(EntriesOf(data), index);
    if overlaps {
      return Err(EntryOverlap(index));
    }
    r := Ok((entry, blob));
  }

  /** The validating loop, reading only inside the data whatever it holds. */
  method Extract(data: seq<Byte>) returns (r: Result<Extracted, ExtractError>)
    ensures r == ExtractResult(data)
  {
    hide HeaderOk, EntryAt, BlobAt, EntryError, InBounds, HeaderOf;
    var header := ReadHeader(data);
    if header.Err? {
      return Err(header.error);
    }
    var h := header.value;
    HeaderBounds(data);
    var entries: seq<Entry>, blobs: seq<Blob>, intervals: seq<(nat, nat)> := [], [], [];
    for index := 0 to h.entryCount
      invariant |entries| == |blobs| == |intervals| == index
      invariant FirstError(data, index) == FirstError(data, 0)
      invariant forall i | 0 <= i < index :: InBounds(h, EntryAt(data, i))
      invariant forall i | 0 <= i < index :: entries[i] == EntryAt(data, i) && blobs[i] == BlobAt(data, i)
      invariant forall i | 0 <= i < index :: intervals[i] == (EntryAt(data, i).offset, EntryAt(data, i).End())
    {
      var checked := CheckEntry(data, h, index, intervals);
      if checked.Err? {
        return Err(checked.error);
      }
      var (entry, blob) := checked.value;
      intervals := intervals + [(entry.offset, entry.End())];
      entries := entries + [entry];
      blobs := blobs + [blob];
    }
    FirstErrorNone(data, 0);
    assert entries == EntriesOf(data) && blobs == BlobsOf(data, h.entryCount);
    r := Ok(Extracted(h, entries, blobs));
  }

  lemma NotPowerOfTwo()
    ensures !PowerOfTwo(0)
  {
  }

  lemma HeaderBounds(data: seq<Byte>)
    requires HeaderOk(data)
    ensures |data| >= STRUCT_SIZE && HeaderOf(data).totalSize <= |data|
    ensures Coherent(HeaderOf(data), |data|) && TableFits(HeaderOf(data)) && Fields(data, 0)[0] == MAGIC
  {
    hide Fields, PowerOfTwo;
  }

  method ReadEntry(data: seq<Byte>, h: Header, index: nat) returns (e: Entry)
    requires HeaderOk(data) && h == HeaderOf(data) && index < h.entryCount
    ensures e == EntryAt(data, index)
  {
    hide Fields, PowerOfTwo;
    RowInside(h, index);
    var offset := h.entriesOffset + index * h.entrySize;
    var f := Fields(data, offset);
    e := Entry(f[0], f[1], f[2], f[3], [f[4], f[5], f[6], f[7]]);
    assert f[4..] == [f[4], f[5], f[6], f[7]];
  }

  method Overlaps(intervals: seq<(nat, nat)>, start: nat, end: nat) returns (r: bool)
    ensures r <==> exists j | 0 <= j < |intervals| :: start < intervals[j].1 && intervals[j].0 < end
  {
    for j := 0 to |intervals|
      invariant forall k | 0 <= k < j :: !(start < intervals[k].1 && intervals[k].0 < end)
    {
      if start < intervals[j].1 && intervals[j].0 < end {
        return true;
      }
    }
    r := false;
  }
}
