/**
 Packing and extracting are inverse to each other: what is packed extracts to the same fields
 and payloads exactly when it holds device trees, and whatever extracts can be packed again.
 */
module DtboRoundTrip {
  import opened Wrappers
  import opened ByteCodec
  import opened DtboPack
  import opened DtboExtract

  // ----- reading the layout -----

  lemma FrontSlice(a: seq<Byte>, b: seq<Byte>, c: seq<Byte>, at: nat)
    requires at + STRUCT_SIZE <= |a|
    ensures (a + b + c)[at..at + STRUCT_SIZE] == a[at..at + STRUCT_SIZE]
  {
  }

  lemma MiddleSlice(a: seq<Byte>, b: seq<Byte>, c: seq<Byte>)
    ensures (a + b + c)[|a|..|a| + |b|] == b
  {
  }

  /** Row `i` of a table stands behind the table of the rows in front of it. */
  lemma {:induction false} TableSlice(rows: seq<seq<int>>, entrySize: nat, i: nat)
    requires entrySize >= STRUCT_SIZE && i < |rows| && forall k | 0 <= k < |rows| :: IsRow(rows[k])
    ensures
      var at := |Table(rows[..i], entrySize)|;
      && at + STRUCT_SIZE <= |Table(rows, entrySize)|
      && Table(rows, entrySize)[at..at + STRUCT_SIZE] == Words(rows[i])
    decreases |rows|
  {
    hide Words, Zeros, Table;
    var n := |rows| - 1;
    var front := Table(rows[..n], entrySize);
    TableStep(rows, entrySize);
    assert IsRow(rows[n]);
    if i < n {
      TableSlice(rows[..n], entrySize, i);
      assert rows[..n][i] == rows[i] && rows[..n][..i] == rows[..i];
      FrontSlice(front, Words(rows[n]), Zeros(entrySize - STRUCT_SIZE), |Table(rows[..i], entrySize)|);
    } else {
      MiddleSlice(front, Words(rows[n]), Zeros(entrySize - STRUCT_SIZE));
    }
  }

  lemma TableRow(rows: seq<seq<int>>, entrySize: nat, i: nat)
    requires entrySize >= STRUCT_SIZE && i < |rows| && forall k | 0 <= k < |rows| :: IsRow(rows[k])
    ensures |Table(rows, entrySize)| == entrySize * |rows| && i * entrySize + STRUCT_SIZE <= entrySize * |rows|
    ensures Table(rows, entrySize)[i * entrySize..i * entrySize + STRUCT_SIZE] == Words(rows[i])
  {
    hide Words, Table, Zeros;
    TableSlice(rows, entrySize, i);
    TableLength(rows[..i], entrySize);
    TableLength(rows, entrySize);
  }

  lemma {:induction false} ConcatSlice(blobs: seq<Blob>, i: nat, n: nat)
    requires i < n <= |blobs|
    ensures |Concat(blobs[..i])| + |blobs[i]| <= |Concat(blobs[..n])|
    ensures Concat(blobs[..n])[|Concat(blobs[..i])|..|Concat(blobs[..i])| + |blobs[i]|] == blobs[i]
    decreases n
  {
    assert blobs[..n][..n - 1] == blobs[..n - 1];
    if i < n - 1 {
      ConcatSlice(blobs, i, n - 1);
    }
  }

  lemma SliceOfConcat(a: seq<Byte>, b: seq<Byte>, c: seq<Byte>, i: nat, n: nat)
    requires i + n <= |b|
    ensures |a| + i + n <= |a + b + c| && (a + b + c)[|a| + i..|a| + i + n] == b[i..i + n]
  {
  }

  predicate Packs(t: Template, blobs: seq<Blob>) {
    PackResult(t, blobs).Ok?
  }

  /** The parts of a packed image. */
  lemma LayoutParts(t: Template, blobs: seq<Blob>)
    requires Packs(t, blobs)
    ensures |t.entries| == |blobs| && SizesOk(t)
    ensures PackResult(t, blobs) == Ok(Layout(t, blobs)) && |Layout(t, blobs)| == TotalSize(t, blobs)
    ensures STRUCT_SIZE <= TableEnd(t) <= TotalSize(t, blobs)
    ensures AllFit(HeaderWords(t, blobs))
    ensures forall i | 0 <= i < |blobs| :: |t.entries[i].custom| == 4 && AllFit(EntryWords(t, blobs, i))
    ensures |Table(Rows(t, blobs, |blobs|), t.entrySize)| == t.entrySize * |blobs|
  {
    hide Table, Words, Concat, AllFit, EntryWords;
    FirstProblemNone(t, blobs, 0);
    forall i | 0 <= i < |blobs|
      ensures |t.entries[i].custom| == 4 && AllFit(EntryWords(t, blobs, i))
    {
      assert EntryProblem(t, blobs, i).None?;
    }
    RowsAreRows(t, blobs, |blobs|);
    TableLength(Rows(t, blobs, |blobs|), t.entrySize);
    assert t.entrySize * |blobs| >= 0;
    assert blobs[..|blobs|] == blobs;
  }

  lemma HeaderReadsBack(t: Template, blobs: seq<Blob>)
    requires Packs(t, blobs)
    ensures
      var data := Layout(t, blobs);
      && |data| >= STRUCT_SIZE && Fields(data, 0) == HeaderWords(t, blobs)
      && (HeaderOk(data) <==> |blobs| > 0 && PowerOfTwo(t.pageSize))
  {
    LayoutParts(t, blobs);
    hide Table, Words, Concat, AllFit, Fields, PowerOfTwo, Zeros, Rows;
    var data := Layout(t, blobs);
    assert data[0..0 + STRUCT_SIZE] == Words(HeaderWords(t, blobs));
    FieldsReadBack(data, 0, HeaderWords(t, blobs));
    assert |blobs| * t.entrySize == t.entrySize * |blobs| >= 0;
    PageFits(t, blobs);
  }

  lemma PageFits(t: Template, blobs: seq<Blob>)
    requires AllFit(HeaderWords(t, blobs))
    ensures t.pageSize >= 0 && t.version >= 0
  {
    assert HeaderWords(t, blobs)[6] == t.pageSize && HeaderWords(t, blobs)[7] == t.version;
  }

  /** The entry the table must hold for payload `i`. */
  function ExpectedEntry(t: Template, blobs: seq<Blob>, i: nat): Entry
    requires Packs(t, blobs) && i < |blobs|
  {
    LayoutParts(t, blobs);
    var w := EntryWords(t, blobs, i);
    Entry(w[0], w[1], w[2], w[3], w[4..])
  }

  lemma LayoutInThree(t: Template, blobs: seq<Blob>)
    requires SizesOk(t) && |t.entries| == |blobs|
    ensures
      var head := Words(HeaderWords(t, blobs)) + Zeros(t.headerSize - STRUCT_SIZE);
      |head| == t.headerSize && Layout(t, blobs) == head + Table(Rows(t, blobs, |blobs|), t.entrySize) + Concat(blobs)
  {
    hide Table, Words, Concat, Rows, HeaderWords;
  }

  predicate StandsAt(data: seq<Byte>, at: nat, bytes: seq<Byte>) {
    at + |bytes| <= |data| && data[at..at + |bytes|] == bytes
  }

  lemma RowInTable(t: Template, blobs: seq<Blob>, i: nat)
    requires Packs(t, blobs) && i < |blobs| && |t.entries| == |blobs| && SizesOk(t)
    ensures StandsAt(Table(Rows(t, blobs, |blobs|), t.entrySize), i * t.entrySize, Words(EntryWords(t, blobs, i)))
  {
    LayoutParts(t, blobs);
    hide Table, Words, AllFit, EntryWords, HeaderWords, Packs, Layout, TotalSize;
    var rows := Rows(t, blobs, |blobs|);
    RowsAreRows(t, blobs, |blobs|);
    assert rows[i] == EntryWords(t, blobs, i) && IsRow(rows[i]);
    hide Rows;
    TableRow(rows, t.entrySize, i);
  }

  lemma RowSlice(t: Template, blobs: seq<Blob>, i: nat, at: nat)
    requires Packs(t, blobs) && i < |blobs| && at == t.headerSize + i * t.entrySize
    requires |t.entries| == |blobs| && SizesOk(t)
    ensures StandsAt(Layout(t, blobs), at, Words(EntryWords(t, blobs, i)))
  {
    RowInTable(t, blobs, i);
    LayoutInThree(t, blobs);
    hide Table, Words, Concat, Rows, EntryWords, HeaderWords, Packs, Layout, Zeros, StandsAt;
    RowBehindHeader(Words(HeaderWords(t, blobs)) + Zeros(t.headerSize - STRUCT_SIZE),
                    Table(Rows(t, blobs, |blobs|), t.entrySize), Concat(blobs),
                    i * t.entrySize, Words(EntryWords(t, blobs, i)));
  }

  lemma RowBehindHeader(head: seq<Byte>, table: seq<Byte>, payload: seq<Byte>, off: nat, row: seq<Byte>)
    requires StandsAt(table, off, row)
    ensures StandsAt(head + table + payload, |head| + off, row)
  {
  }

  lemma EntryFromRow(data: seq<Byte>, i: nat, at: nat, w: seq<int>)
    requires HeaderOk(data) && i < HeaderOf(data).entryCount && at == RowAt(HeaderOf(data), i)
    requires |w| == 8 && AllFit(w) && at + STRUCT_SIZE <= |data| && data[at..at + STRUCT_SIZE] == Words(w)
    ensures EntryAt(data, i) == Entry(w[0], w[1], w[2], w[3], w[4..])
  {
    hide Fields, Words, PowerOfTwo, HeaderOk, HeaderOf;
    FieldsReadBack(data, at, w);
  }

  lemma HeaderIsExpected(t: Template, blobs: seq<Blob>)
    requires Packs(t, blobs)
    ensures |Layout(t, blobs)| >= STRUCT_SIZE && t.pageSize >= 0 && t.version >= 0
    ensures HeaderOf(Layout(t, blobs)) == ExpectedHeader(t, blobs)
    ensures EntriesEnd(ExpectedHeader(t, blobs)) == TableEnd(t)
  {
    HeaderReadsBack(t, blobs);
    hide Layout, Fields, PackResult;
    assert |blobs| * t.entrySize == t.entrySize * |blobs|;
  }

  function ExpectedHeader(t: Template, blobs: seq<Blob>): Header
    requires Packs(t, blobs)
  {
    LayoutParts(t, blobs);
    PageFits(t, blobs);
    Header(TotalSize(t, blobs), t.headerSize, t.entrySize, |blobs|, t.headerSize, t.pageSize, t.version)
  }

  lemma ExpectedShape(t: Template, blobs: seq<Blob>, i: nat)
    requires Packs(t, blobs) && i < |blobs| && |t.entries| == |blobs|
    ensures |EntryWords(t, blobs, i)| == 8 && AllFit(EntryWords(t, blobs, i))
    ensures
      var w := EntryWords(t, blobs, i);
      ExpectedEntry(t, blobs, i) == Entry(w[0], w[1], w[2], w[3], w[4..])
  {
    LayoutParts(t, blobs);
    hide Layout, Table, AllFit, PackResult, Fits;
  }

  lemma PacksSizes(t: Template, blobs: seq<Blob>)
    requires Packs(t, blobs)
    ensures |t.entries| == |blobs| && SizesOk(t)
  {
    LayoutParts(t, blobs);
  }

  lemma RowReadsBack(t: Template, blobs: seq<Blob>, i: nat)
    requires Packs(t, blobs) && i < |blobs| && HeaderOk(Layout(t, blobs))
    ensures HeaderOf(Layout(t, blobs)) == ExpectedHeader(t, blobs)
    ensures EntryAt(Layout(t, blobs), i) == ExpectedEntry(t, blobs, i)
  {
    HeaderIsExpected(t, blobs);
    ExpectedShape(t, blobs, i);
    hide Words, AllFit, EntryWords, HeaderOk, Layout, Packs, ExpectedEntry, EntryAt, HeaderOf, TotalSize, Table, Concat;
    var at := RowAt(ExpectedHeader(t, blobs), i);
    PacksSizes(t, blobs);
    RowSlice(t, blobs, i, at);
    EntryFromRow(Layout(t, blobs), i, at, EntryWords(t, blobs, i));
  }

  lemma PayloadReadsBack(t: Template, blobs: seq<Blob>, i: nat)
    requires Packs(t, blobs) && i < |blobs|
    ensures
      var data, e := Layout(t, blobs), ExpectedEntry(t, blobs, i);
      && e.size == |blobs[i]| && TableEnd(t) <= e.offset && e.End() <= |data| == TotalSize(t, blobs)
      && data[e.offset..e.End()] == blobs[i]
  {
    LayoutParts(t, blobs);
    ConcatSlice(blobs, i, |blobs|);
    assert blobs[..|blobs|] == blobs;
    hide Table, Words, Concat, AllFit, Zeros, Rows;
    var front := Words(HeaderWords(t, blobs)) + Zeros(t.headerSize - STRUCT_SIZE) + Table(Rows(t, blobs, |blobs|), t.entrySize);
    assert |front| == TableEnd(t);
    SliceOfConcat(front, Concat(blobs), [], |Concat(blobs[..i])|, |blobs[i]|);
    assert front + Concat(blobs) + [] == Layout(t, blobs);
  }

  lemma ExpectedAreDisjoint(t: Template, blobs: seq<Blob>, i: nat, j: nat)
    requires Packs(t, blobs) && i < j < |blobs|
    ensures ExpectedEntry(t, blobs, i).Span() !! ExpectedEntry(t, blobs, j).Span()
  {
    LayoutParts(t, blobs);
    PayloadsGrow(blobs, i, j);
    hide Table, Concat, AllFit, Rows, Layout;
    assert ExpectedEntry(t, blobs, i).End() <= ExpectedEntry(t, blobs, j).offset;
  }

  /** The manifest a packed image must extract to. */
  function ExpectedExtract(t: Template, blobs: seq<Blob>): Extracted
    requires Packs(t, blobs)
  {
    Extracted(
      ExpectedHeader(t, blobs),
      seq(|blobs|, i requires 0 <= i < |blobs| => ExpectedEntry(t, blobs, i)),
      blobs)
  }

  lemma PackedEntries(t: Template, blobs: seq<Blob>)
    requires Packs(t, blobs) && HeaderOk(Layout(t, blobs))
    ensures EntriesOf(Layout(t, blobs)) == ExpectedExtract(t, blobs).entries
    ensures Disjoint(EntriesOf(Layout(t, blobs)))
  {
    HeaderReadsBack(t, blobs);
    hide Packs, Layout, ExpectedEntry, HeaderOk, EntryAt, Entry.Span, Fields;
    var es := EntriesOf(Layout(t, blobs));
    forall i | 0 <= i < |blobs|
      ensures EntryAt(Layout(t, blobs), i) == ExpectedEntry(t, blobs, i)
    {
      RowReadsBack(t, blobs, i);
    }
    forall i, j | 0 <= i < j < |es| ensures es[i].Span() !! es[j].Span() {
      ExpectedAreDisjoint(t, blobs, i, j);
    }
  }

  lemma PackedPayload(t: Template, blobs: seq<Blob>, i: nat)
    requires Packs(t, blobs) && HeaderOk(Layout(t, blobs)) && i < |blobs|
    ensures
      var data := Layout(t, blobs);
      && HeaderOf(data).entryCount == |blobs|
      && (GoodPayload(data, i) <==> IsFdt(blobs[i]))
      && (GoodPayload(data, i) ==> BlobAt(data, i) == blobs[i])
  {
    RowReadsBack(t, blobs, i);
    PayloadReadsBack(t, blobs, i);
    HeaderIsExpected(t, blobs);
    hide Packs, Layout, ExpectedEntry, HeaderOk, EntryAt, Fields, TableEnd, TotalSize, EntriesEnd, HeaderOf;
    assert ExpectedHeader(t, blobs).totalSize == TotalSize(t, blobs);
  }

  lemma PackedIsContainer(t: Template, blobs: seq<Blob>)
    requires Packs(t, blobs) && HeaderOk(Layout(t, blobs))
    ensures HeaderOf(Layout(t, blobs)).entryCount == |blobs|
    ensures IsContainer(Layout(t, blobs)) <==> forall i | 0 <= i < |blobs| :: IsFdt(blobs[i])
    ensures IsContainer(Layout(t, blobs)) ==>
      (forall i | 0 <= i < |blobs| :: InBounds(HeaderOf(Layout(t, blobs)), EntryAt(Layout(t, blobs), i)))
      && BlobsOf(Layout(t, blobs), |blobs|) == blobs
  {
    HeaderIsExpected(t, blobs);
    PackedEntries(t, blobs);
    hide Packs, Layout, HeaderOk, Disjoint, BlobAt, InBounds, IsFdt, HeaderOf, TotalSize, GoodPayload, EntriesOf,
      ExpectedExtract;
    var data := Layout(t, blobs);
    assert HeaderOf(data).entryCount == |blobs|;
    forall i | 0 <= i < |blobs|
      ensures GoodPayload(data, i) <==> IsFdt(blobs[i])
      ensures GoodPayload(data, i) ==> InBounds(HeaderOf(data), EntryAt(data, i)) && BlobAt(data, i) == blobs[i]
    {
      PackedPayload(t, blobs, i);
      if GoodPayload(data, i) {
        GoodIsInBounds(data, i);
      }
    }
  }

  /**
   A packed image is accepted exactly when it has a payload, its page size is a power of two and
   every payload is a device tree; then the same fields and payloads come back in order.
   */
  lemma PackedExtractsExactly(t: Template, blobs: seq<Blob>)
    requires Packs(t, blobs)
    ensures
      var r := ExtractResult(PackResult(t, blobs).value);
      && (r.Ok? <==> |blobs| > 0 && PowerOfTwo(t.pageSize) && forall i | 0 <= i < |blobs| :: IsFdt(blobs[i]))
      && (r.Ok? ==> r.value == ExpectedExtract(t, blobs))
  {
    LayoutParts(t, blobs);
    HeaderReadsBack(t, blobs);
    var data := Layout(t, blobs);
    ExtractsExactly(data);
    hide PackResult, ExtractResult, Layout, ExpectedEntry, HeaderOk, EntryAt, Disjoint, PowerOfTwo, BlobAt, InBounds,
      IsFdt, HeaderOf, HeaderWords, EntryWords, TotalSize, TableEnd, Fields;
    if HeaderOk(data) {
      PackedIsContainer(t, blobs);
    }
    if ExtractResult(data).Ok? {
      ExtractsContents(data);
      HeaderIsExpected(t, blobs);
      PackedEntries(t, blobs);
    }
  }

  // ----- repacking -----

  /** The manifest as a packing template. */
  function TemplateOf(x: Extracted): Template {
    Template(x.header.headerSize, x.header.entrySize, x.header.pageSize, x.header.version,
             seq(|x.entries|, i requires 0 <= i < |x.entries| =>
                   Metadata(x.entries[i].id, x.entries[i].rev, x.entries[i].custom)))
  }

  lemma TemplateOfExpected(t: Template, blobs: seq<Blob>)
    requires Packs(t, blobs)
    ensures TemplateOf(ExpectedExtract(t, blobs)) == t
  {
    var x := ExpectedExtract(t, blobs);
    LayoutParts(t, blobs);
    hide Packs, ExpectedEntry, EntryWords, Layout, Table, Rows;
    forall i | 0 <= i < |blobs|
      ensures Metadata(x.entries[i].id, x.entries[i].rev, x.entries[i].custom) == t.entries[i]
    {
      ExpectedMetadata(t, blobs, i);
    }
    assert TemplateOf(x).entries == t.entries;
  }

  /** Repacking what a packed image extracts to gives the same bytes. */
  lemma RepackingIsIdentity(t: Template, blobs: seq<Blob>)
    requires Packs(t, blobs) && ExtractResult(PackResult(t, blobs).value).Ok?
    ensures
      var image := PackResult(t, blobs).value;
      var x := ExtractResult(image).value;
      TemplateOf(x) == t && x.blobs == blobs && PackResult(TemplateOf(x), x.blobs) == Ok(image)
  {
    PackedExtractsExactly(t, blobs);
    TemplateOfExpected(t, blobs);
    ExpectedBlobs(t, blobs);
    hide PackResult, ExtractResult, ExpectedExtract, TemplateOf, PowerOfTwo, IsFdt;
  }

  lemma ExpectedBlobs(t: Template, blobs: seq<Blob>)
    requires Packs(t, blobs)
    ensures ExpectedExtract(t, blobs).blobs == blobs
  {
    hide Packs, ExpectedEntry, ExpectedHeader;
  }

  lemma ExpectedMetadata(t: Template, blobs: seq<Blob>, i: nat)
    requires Packs(t, blobs) && i < |blobs|
    ensures |t.entries| == |blobs|
    ensures
      var e := ExpectedEntry(t, blobs, i);
      Metadata(e.id, e.rev, e.custom) == t.entries[i]
  {
    LayoutParts(t, blobs);
    ExpectedShape(t, blobs, i);
    hide Packs, ExpectedEntry;
    var w, m := EntryWords(t, blobs, i), t.entries[i];
    assert w[4..] == m.custom;
  }

  ghost function SizesSum(es: seq<Entry>): nat {
    if es == [] then 0 else SizesSum(es[..|es| - 1]) + es[|es| - 1].size
  }

  ghost function Covered(es: seq<Entry>): set<nat> {
    if es == [] then {} else Covered(es[..|es| - 1]) + es[|es| - 1].Span()
  }

  ghost function Range(lo: nat, hi: nat): (r: set<nat>)
    requires lo <= hi
    ensures |r| == hi - lo && forall at: nat :: at in r <==> lo <= at < hi
    decreases hi - lo
  {
    if lo == hi then {} else Range(lo, hi - 1) + {hi - 1}
  }

  lemma {:induction false} CoveredCounts(es: seq<Entry>)
    requires Disjoint(es)
    ensures |Covered(es)| == SizesSum(es)
    ensures forall at :: at in Covered(es) <==> exists i :: 0 <= i < |es| && at in es[i].Span()
  {
    hide Entry.Span;
    if es != [] {
      var k := |es| - 1;
      var front := es[..k];
      CoveredCounts(front);
      assert forall i | 0 <= i < k :: front[i] == es[i];
      assert Covered(front) !! es[k].Span();
      SpanSize(es[k]);
    }
  }

  lemma SpanSize(e: Entry)
    ensures |e.Span()| == e.size
  {
    assert e.Span() == Range(e.offset, e.End());
  }

  lemma SubsetSize(a: set<nat>, b: set<nat>)
    requires a <= b
    ensures |a| <= |b|
  {
    assert b == a + (b - a);
  }

  /** Payloads that share no byte take no more room than the region they lie in. */
  lemma DisjointSpansFit(es: seq<Entry>, lo: nat, hi: nat)
    requires lo <= hi && Disjoint(es) && forall i | 0 <= i < |es| :: lo <= es[i].offset && es[i].End() <= hi
    ensures SizesSum(es) <= hi - lo
  {
    CoveredCounts(es);
    SubsetSize(Covered(es), Range(lo, hi));
  }

  lemma {:induction false} ConcatSize(es: seq<Entry>, blobs: seq<Blob>)
    requires |es| == |blobs| && forall i | 0 <= i < |es| :: |blobs[i]| == es[i].size
    ensures |Concat(blobs)| == SizesSum(es)
  {
    if es != [] {
      ConcatSize(es[..|es| - 1], blobs[..|blobs| - 1]);
    }
  }

  lemma ContainerFits(data: seq<Byte>)
    requires IsContainer(data)
    ensures
      var x := ContentsOf(data);
      && TotalSize(TemplateOf(x), x.blobs) <= x.header.totalSize
      && SizesOk(TemplateOf(x)) && Fits(x.header.totalSize) && x.header.entryCount == |x.entries| == |x.blobs| > 0
      && PowerOfTwo(x.header.pageSize) && Fits(x.header.entrySize) && Fits(x.header.pageSize) && Fits(x.header.version)
  {
    HeaderBounds(data);
    ContainerInBounds(data);
    var x := ContentsOf(data);
    hide Fields, PowerOfTwo, BlobAt, EntryAt, GoodPayload, Concat, Disjoint, HeaderOk, IsContainer;
    var h := x.header;
    forall i | 0 <= i < |x.entries|
      ensures EntriesEnd(h) <= x.entries[i].offset && x.entries[i].End() <= h.totalSize
      ensures |x.blobs[i]| == x.entries[i].size
    {
      assert InBounds(h, EntryAt(data, i));
    }
    assert IsDisjoint(data);
    DisjointSpansFit(x.entries, EntriesEnd(h), h.totalSize);
    ConcatSize(x.entries, x.blobs);
    assert h.entrySize * |x.entries| == h.entryCount * h.entrySize;
    HeaderWordsFit(data);
  }

  lemma HeaderWordsFit(data: seq<Byte>)
    requires |data| >= STRUCT_SIZE
    ensures
      var h := HeaderOf(data);
      Fits(h.totalSize) && Fits(h.entrySize) && Fits(h.pageSize) && Fits(h.version)
  {
    hide WordAt;
  }

  /**
   Whatever the extractor accepts can be packed again: the result is no larger, and extracts to
   the same sizes, ids, revisions, custom words and payloads.
   */
  lemma ContainerRepacks(data: seq<Byte>)
    requires IsContainer(data)
    ensures
      var x := ContentsOf(data);
      && Packs(TemplateOf(x), x.blobs)
      && |PackResult(TemplateOf(x), x.blobs).value| <= x.header.totalSize <= |data|
      && ExtractResult(PackResult(TemplateOf(x), x.blobs).value).Ok?
      && TemplateOf(ExtractResult(PackResult(TemplateOf(x), x.blobs).value).value) == TemplateOf(x)
      && ExtractResult(PackResult(TemplateOf(x), x.blobs).value).value.blobs == x.blobs
  {
    HeaderBounds(data);
    ContainerFits(data);
    ContainerEntries(data);
    hide ExtractResult, IsContainer, PowerOfTwo, IsFdt, AllFit, Fits, Layout, HeaderOk, HeaderOf, TotalSize;
    var x := ContentsOf(data);
    ContainerPacks(x);
    hide ContentsOf, PackResult;
    LayoutParts(TemplateOf(x), x.blobs);
    PackedExtractsExactly(TemplateOf(x), x.blobs);
    RepackingIsIdentity(TemplateOf(x), x.blobs);
  }

  lemma ContainerPacks(x: Extracted)
    requires TotalSize(TemplateOf(x), x.blobs) <= x.header.totalSize && Fits(x.header.totalSize)
    requires SizesOk(TemplateOf(x)) && |x.entries| == |x.blobs|
    requires Fits(x.header.entrySize) && Fits(x.header.pageSize) && Fits(x.header.version)
    requires forall m | m in TemplateOf(x).entries :: |m.custom| == 4 && Fits(m.id) && Fits(m.rev) && AllFit(m.custom)
    ensures Packs(TemplateOf(x), x.blobs)
  {
    PacksFitting(TemplateOf(x), x.blobs);
    hide PackResult, AllFit, Concat;
    assert |TemplateOf(x).entries| * TemplateOf(x).entrySize >= 0;
  }

  lemma ContainerEntries(data: seq<Byte>)
    requires IsContainer(data)
    ensures
      var x := ContentsOf(data);
      && |x.entries| == |x.blobs|
      && (forall m | m in TemplateOf(x).entries :: |m.custom| == 4 && Fits(m.id) && Fits(m.rev) && AllFit(m.custom))
      && (forall i | 0 <= i < |x.blobs| :: IsFdt(x.blobs[i]))
  {
    ContainerInBounds(data);
    hide Fits, AllFit, IsFdt, PowerOfTwo, HeaderOk, Disjoint, EntryAt, BlobAt, InBounds;
    var x := ContentsOf(data);
    forall i | 0 <= i < |x.entries|
      ensures
        var m := TemplateOf(x).entries[i];
        |m.custom| == 4 && Fits(m.id) && Fits(m.rev) && AllFit(m.custom)
    {
      EntryFieldsFit(data, i);
    }
    forall i | 0 <= i < |x.blobs| ensures IsFdt(x.blobs[i]) {
      assert GoodPayload(data, i);
    }
  }

  lemma EntryFieldsFit(data: seq<Byte>, i: nat)
    requires HeaderOk(data) && i < HeaderOf(data).entryCount
    ensures
      var e := EntryAt(data, i);
      |e.custom| == 4 && Fits(e.id) && Fits(e.rev) && AllFit(e.custom)
  {
    hide WordAt, PowerOfTwo, HeaderOk;
  }

  ghost predicate IsDisjoint(data: seq<Byte>)
    requires IsContainer(data)
  {
    Disjoint(ContentsOf(data).entries)
  }
}
