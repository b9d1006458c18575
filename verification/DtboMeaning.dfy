/** What the DTBO extractor accepts and returns, word by word in the image. */
module DtboMeaning {
  import opened Wrappers
  import opened ByteCodec
  import opened DtboPack
  import opened DtboExtract

  /** The words of the image at these positions, four bytes each, most significant first. */
  predicate SoundHeader(data: seq<Byte>) {
    && |data| >= 32 && WordAt(data, 0) == 0xD7B7_AB1E
    && var total, header, size, count, table, page :=
         WordAt(data, 4), WordAt(data, 8), WordAt(data, 12), WordAt(data, 16), WordAt(data, 20), WordAt(data, 24);
       && 32 <= total <= |data| && 32 <= header <= total && size >= 32 && count > 0
       && PowerOfTwo(page)
       && header <= table && table + count * size <= total
  }

  function Spaced(start: nat, i: nat, size: nat): nat {
    start + i * size
  }

  function Row(data: seq<Byte>, i: nat): nat
    requires |data| >= 32
  {
    Spaced(WordAt(data, 20), i, WordAt(data, 12))
  }

  /** The entry holds the eight words of row `i`, and the payload is the stretch they name. */
  predicate RowReads(data: seq<Byte>, i: nat, e: Entry, blob: Blob)
    requires |data| >= 32
  {
    var r := Row(data, i);
    && r + 32 <= |data|
    && e.size == WordAt(data, r) && e.offset == WordAt(data, r + 4)
    && e.id == WordAt(data, r + 8) && e.rev == WordAt(data, r + 12)
    && e.custom == [WordAt(data, r + 16), WordAt(data, r + 20), WordAt(data, r + 24), WordAt(data, r + 28)]
    && e.offset + e.size <= |data| && blob == data[e.offset..e.offset + e.size]
  }

  /** Row `i` of the table names a device tree behind the table and inside the container. */
  predicate SoundRow(data: seq<Byte>, i: nat)
    requires SoundHeader(data)
  {
    && Row(data, i) + 32 <= |data|
    && var size, at := WordAt(data, Row(data, i)), WordAt(data, Row(data, i) + 4);
       && size >= 40 && WordAt(data, 20) + WordAt(data, 16) * WordAt(data, 12) <= at && at + size <= WordAt(data, 4)
       && at + 8 <= |data| && WordAt(data, at) == 0xD00D_FEED && 40 <= WordAt(data, at + 4) <= size
  }

  /** Of two rows, one's tree ends before the other's begins. */
  predicate RowsApart(data: seq<Byte>, i: nat, j: nat)
    requires SoundHeader(data) && SoundRow(data, i) && SoundRow(data, j)
  {
    var a, b := Row(data, i), Row(data, j);
    || WordAt(data, a + 4) + WordAt(data, a) <= WordAt(data, b + 4)
    || WordAt(data, b + 4) + WordAt(data, b) <= WordAt(data, a + 4)
  }

  predicate SoundContainer(data: seq<Byte>) {
    && SoundHeader(data)
    && (forall i | 0 <= i < WordAt(data, 16) :: SoundRow(data, i))
    && (forall i, j | 0 <= i < j < WordAt(data, 16) :: RowsApart(data, i, j))
  }

  lemma FieldWords(data: seq<Byte>, at: nat)
    requires at + 32 <= |data|
    ensures forall k | 0 <= k < 8 :: Fields(data, at)[k] == WordAt(data, at + 4 * k)
  {
    hide WordAt;
    var f := Fields(data, at);
    assert f[0] == WordAt(data, at) && f[1] == WordAt(data, at + 4) && f[2] == WordAt(data, at + 8);
    assert f[3] == WordAt(data, at + 12) && f[4] == WordAt(data, at + 16) && f[5] == WordAt(data, at + 20);
    assert f[6] == WordAt(data, at + 24) && f[7] == WordAt(data, at + 28);
  }

  lemma HeaderExactly(data: seq<Byte>)
    ensures HeaderOk(data) <==> SoundHeader(data)
    ensures HeaderOk(data) ==>
      HeaderOf(data) == Header(WordAt(data, 4), WordAt(data, 8), WordAt(data, 12), WordAt(data, 16), WordAt(data, 20),
                               WordAt(data, 24), WordAt(data, 28))
  {
    if |data| >= 32 {
      FieldWords(data, 0);
    }
    hide WordAt, PowerOfTwo, Fields;
  }

  lemma EntryExactly(data: seq<Byte>, i: nat)
    requires HeaderOk(data) && SoundHeader(data) && i < HeaderOf(data).entryCount
    ensures
      var e, r := EntryAt(data, i), RowAt(HeaderOf(data), i);
      && r + 32 <= |data| && r == Row(data, i)
      && e.size == WordAt(data, r) && e.offset == WordAt(data, r + 4) && e.id == WordAt(data, r + 8)
      && e.rev == WordAt(data, r + 12)
      && e.custom == [WordAt(data, r + 16), WordAt(data, r + 20), WordAt(data, r + 24), WordAt(data, r + 28)]
  {
    HeaderExactly(data);
    hide PowerOfTwo;
    RowInside(HeaderOf(data), i);
    var r := RowAt(HeaderOf(data), i);
    FieldWords(data, r);
    hide WordAt, Fields;
    var f := Fields(data, r);
    assert f[4] == WordAt(data, r + 4 * 4) && f[5] == WordAt(data, r + 4 * 5) && f[6] == WordAt(data, r + 4 * 6)
        && f[7] == WordAt(data, r + 4 * 7);
    assert f[0] == WordAt(data, r + 4 * 0) && f[1] == WordAt(data, r + 4 * 1) && f[2] == WordAt(data, r + 4 * 2)
        && f[3] == WordAt(data, r + 4 * 3);
    assert f[4..] == [f[4], f[5], f[6], f[7]];
  }

  lemma RowExactly(data: seq<Byte>, i: nat)
    requires HeaderOk(data) && SoundHeader(data) && i < HeaderOf(data).entryCount
    ensures GoodPayload(data, i) <==> SoundRow(data, i)
  {
    HeaderExactly(data);
    EntryExactly(data, i);
    hide PowerOfTwo, EntryAt, RowAt, Row, HeaderOf;
    var h, e := HeaderOf(data), EntryAt(data, i);
    if InBounds(h, e) {
      var blob := BlobAt(data, i);
      WordInSlice(data, e.offset, 0, e.size);
      WordInSlice(data, e.offset, 4, e.size);
      assert blob == data[e.offset..e.offset + e.size];
    }
    hide WordAt;
  }

  lemma ApartExactly(a: Entry, b: Entry)
    requires a.size > 0 && b.size > 0
    ensures a.Span() !! b.Span() <==> a.offset + a.size <= b.offset || b.offset + b.size <= a.offset
  {
    OverlapSharesByte(a, b);
  }

  /**
   The extractor accepts exactly the images whose words say so, and returns the words of the header and of
   every row, and the bytes each row names.
   */
  lemma AcceptedWords(data: seq<Byte>)
    ensures ExtractResult(data).Ok? <==> SoundContainer(data)
    ensures ExtractResult(data).Ok? ==>
      var x := ExtractResult(data).value;
      && |data| >= 32
      && x.header == Header(WordAt(data, 4), WordAt(data, 8), WordAt(data, 12), WordAt(data, 16), WordAt(data, 20),
                            WordAt(data, 24), WordAt(data, 28))
      && |x.entries| == |x.blobs| == WordAt(data, 16)
      && forall i | 0 <= i < |x.entries| :: RowReads(data, i, x.entries[i], x.blobs[i])
  {
    hide WordAt, PowerOfTwo, RowReads, IsContainer, SoundContainer, ExtractResult, HeaderOf;
    HeaderExactly(data);
    ExtractsExactly(data);
    ContainerExactly(data);
    if ExtractResult(data).Ok? {
      ExtractedExactly(data);
    }
  }

  lemma ContainerExactly(data: seq<Byte>)
    ensures IsContainer(data) <==> SoundContainer(data)
  {
    HeaderExactly(data);
    hide WordAt, PowerOfTwo, GoodPayload, SoundRow, EntryAt, Entry.Span, SoundHeader, HeaderOf, RowsApart;
    if HeaderOk(data) {
      forall i | 0 <= i < HeaderOf(data).entryCount ensures GoodPayload(data, i) <==> SoundRow(data, i) {
        RowExactly(data, i);
      }
      if forall i | 0 <= i < HeaderOf(data).entryCount :: SoundRow(data, i) {
        forall i, j | 0 <= i < j < HeaderOf(data).entryCount
          ensures EntriesOf(data)[i].Span() !! EntriesOf(data)[j].Span() <==> RowsApart(data, i, j)
        {
          PairExactly(data, i, j);
        }
      }
    }
  }

  lemma PairExactly(data: seq<Byte>, i: nat, j: nat)
    requires HeaderOk(data) && SoundHeader(data) && i < j < HeaderOf(data).entryCount
    requires SoundRow(data, i) && SoundRow(data, j)
    ensures EntriesOf(data)[i].Span() !! EntriesOf(data)[j].Span() <==> RowsApart(data, i, j)
  {
    EntryExactly(data, i);
    EntryExactly(data, j);
    var a, b := EntryAt(data, i), EntryAt(data, j);
    assert a.size > 0 && b.size > 0;
    ApartExactly(a, b);
    hide WordAt, PowerOfTwo, EntryAt, Entry.Span, HeaderOf;
  }

  lemma ExtractedExactly(data: seq<Byte>)
    requires ExtractResult(data).Ok? && IsContainer(data)
    ensures
      var x := ExtractResult(data).value;
      && HeaderOk(data) && x.header == HeaderOf(data) && |x.entries| == |x.blobs| == HeaderOf(data).entryCount
      && forall i | 0 <= i < |x.entries| :: RowReads(data, i, x.entries[i], x.blobs[i])
  {
    HeaderExactly(data);
    hide WordAt, PowerOfTwo, Fields, FirstError, SoundHeader, RowAt, EntryAt, RowReads, HeaderOf, Disjoint;
    var x := ExtractResult(data).value;
    forall i | 0 <= i < |x.entries| ensures RowReads(data, i, x.entries[i], x.blobs[i]) {
      assert GoodPayload(data, i);
      RowRead(data, i);
    }
  }

  lemma RowRead(data: seq<Byte>, i: nat)
    requires HeaderOk(data) && i < HeaderOf(data).entryCount && GoodPayload(data, i)
    ensures RowReads(data, i, EntryAt(data, i), BlobAt(data, i))
  {
    HeaderExactly(data);
    EntryExactly(data, i);
    hide WordAt, PowerOfTwo, Fields, EntryAt, RowAt, Row, HeaderOf;
  }

  // ----- what is refused -----

  predicate RowsCross(data: seq<Byte>, i: nat, j: nat)
    requires |data| >= 32
  {
    var a, b := Row(data, i), Row(data, j);
    && a + 32 <= |data| && b + 32 <= |data|
    && WordAt(data, a + 4) < WordAt(data, b + 4) + WordAt(data, b)
    && WordAt(data, b + 4) < WordAt(data, a + 4) + WordAt(data, a)
  }

  /** The first thing wrong with row `i`: its bounds, its tree's magic or size, or a tree in front that it crosses. */
  predicate RowFails(data: seq<Byte>, i: nat, e: ExtractError)
    requires SoundHeader(data)
  {
    var r := Row(data, i);
    && r + 32 <= |data|
    && var size, at := WordAt(data, r), WordAt(data, r + 4);
       var inside := size >= 40 && WordAt(data, 20) + WordAt(data, 16) * WordAt(data, 12) <= at && at + size <= WordAt(data, 4);
       if !inside || at + 8 > |data| then e == EntryBounds(i)
       else if WordAt(data, at) != 0xD00D_FEED then e == EntryMagic(i)
       else if !(40 <= WordAt(data, at + 4) <= size) then e == EntryFdtSize(i)
       else e == EntryOverlap(i) && exists j | 0 <= j < i :: RowsCross(data, i, j)
  }

  predicate RowHolds(data: seq<Byte>, i: nat)
    requires SoundHeader(data)
  {
    SoundRow(data, i) && forall j | 0 <= j < i :: !RowsCross(data, i, j)
  }

  lemma CrossExactly(data: seq<Byte>, i: nat)
    requires HeaderOk(data) && SoundHeader(data) && i < HeaderOf(data).entryCount
    ensures OverlapsEarlier(EntriesOf(data), i) <==> exists j | 0 <= j < i :: RowsCross(data, i, j)
  {
    hide WordAt, PowerOfTwo, EntryAt, HeaderOf, Row, RowsCross, Overlap, SoundHeader;
    var es := EntriesOf(data);
    forall j | 0 <= j < i ensures Overlap(es[i], es[j]) <==> RowsCross(data, i, j) {
      CrossPair(data, i, j);
    }
  }

  lemma CrossPair(data: seq<Byte>, i: nat, j: nat)
    requires HeaderOk(data) && SoundHeader(data) && j < i < HeaderOf(data).entryCount
    ensures Overlap(EntryAt(data, i), EntryAt(data, j)) <==> RowsCross(data, i, j)
  {
    EntryExactly(data, i);
    EntryExactly(data, j);
    hide WordAt, PowerOfTwo, EntryAt, HeaderOf, Row, RowAt;
  }

  /** The bounds and the first two words of payload `i`, by the words of the image. */
  lemma PayloadWords(data: seq<Byte>, i: nat)
    requires HeaderOk(data) && SoundHeader(data) && i < HeaderOf(data).entryCount
    ensures
      var r := Row(data, i);
      && r + 32 <= |data|
      && var size, at := WordAt(data, r), WordAt(data, r + 4);
         var inside := size >= 40 && WordAt(data, 20) + WordAt(data, 16) * WordAt(data, 12) <= at && at + size <= WordAt(data, 4);
         && WordAt(data, 4) <= |data|
         && (InBounds(HeaderOf(data), EntryAt(data, i)) <==> inside)
         && (inside ==>
               var blob := BlobAt(data, i);
               |blob| == size && WordAt(blob, 0) == WordAt(data, at) && WordAt(blob, 4) == WordAt(data, at + 4))
  {
    HeaderExactly(data);
    EntryExactly(data, i);
    hide PowerOfTwo, EntryAt, RowAt, Row, HeaderOf, WordAt;
    var x := EntryAt(data, i);
    if InBounds(HeaderOf(data), x) {
      WordInSlice(data, x.offset, 0, x.size);
      WordInSlice(data, x.offset, 4, x.size);
    }
  }

  lemma RowErrorExactly(data: seq<Byte>, i: nat, e: ExtractError)
    requires HeaderOk(data) && SoundHeader(data) && i < HeaderOf(data).entryCount
    ensures EntryError(data, i) == Some(e) <==> RowFails(data, i, e)
  {
    PayloadWords(data, i);
    CrossExactly(data, i);
    hide PowerOfTwo, EntryAt, BlobAt, Row, HeaderOf, OverlapsEarlier, RowsCross, WordAt, InBounds, SoundHeader, HeaderOk, EntriesOf;
  }

  lemma RowHoldsExactly(data: seq<Byte>, i: nat)
    requires HeaderOk(data) && SoundHeader(data) && i < HeaderOf(data).entryCount
    ensures EntryError(data, i) == None <==> RowHolds(data, i)
  {
    PayloadWords(data, i);
    CrossExactly(data, i);
    hide PowerOfTwo, EntryAt, BlobAt, Row, HeaderOf, OverlapsEarlier, RowsCross, WordAt, InBounds, SoundHeader, HeaderOk, EntriesOf;
  }

  lemma {:induction false} FirstErrorExactly(data: seq<Byte>, i: nat, e: ExtractError)
    requires HeaderOk(data) && i <= HeaderOf(data).entryCount
    ensures FirstError(data, i) == Some(e) <==>
      exists k :: && i <= k < HeaderOf(data).entryCount && EntryError(data, k) == Some(e)
                  && forall j | i <= j < k :: EntryError(data, j).None?
    decreases HeaderOf(data).entryCount - i
  {
    hide EntryError, Fields, PowerOfTwo, HeaderOf;
    if i < HeaderOf(data).entryCount {
      FirstErrorExactly(data, i + 1, e);
    }
  }

  /** What is wrong with the header, if anything is. */
  function HeaderFails(data: seq<Byte>): (r: Option<ExtractError>)
    ensures r.None? <==> SoundHeader(data)
  {
    if |data| < 32 then Some(TooSmall)
    else if WordAt(data, 0) != 0xD7B7_AB1E then Some(BadMagic)
    else
      var total, header, size, count, table, page :=
        WordAt(data, 4), WordAt(data, 8), WordAt(data, 12), WordAt(data, 16), WordAt(data, 20), WordAt(data, 24);
      if !(32 <= total <= |data| && 32 <= header <= total && size >= 32 && count > 0 && PowerOfTwo(page)) then Some(BadHeader)
      else if !(header <= table && table + count * size <= total) then Some(BadTable)
      else None
  }

  /** Row `i` is the first bad one, and `e` is what is wrong with it. */
  predicate FirstBadRow(data: seq<Byte>, i: nat, e: ExtractError)
    requires SoundHeader(data)
  {
    i < WordAt(data, 16) && RowFails(data, i, e) && forall j | 0 <= j < i :: RowHolds(data, j)
  }

  /** Every refusal, by the words of the image: the header is judged first, then the rows in order. */
  lemma RefusedWords(data: seq<Byte>, e: ExtractError)
    ensures ExtractResult(data) == Err(e) <==>
      if SoundHeader(data) then exists i :: FirstBadRow(data, i, e) else HeaderFails(data) == Some(e)
  {
    hide SoundHeader, HeaderFails, FirstBadRow, ExtractResult;
    if SoundHeader(data) {
      RowsRefuse(data, e);
    } else {
      HeaderRefuses(data);
    }
  }

  lemma RowsRefuse(data: seq<Byte>, e: ExtractError)
    requires SoundHeader(data)
    ensures ExtractResult(data) == Err(e) <==> exists i :: FirstBadRow(data, i, e)
  {
    hide SoundHeader, RowFails, RowHolds, EntryError, WordAt, PowerOfTwo, FirstError, Fields, ExtractResult, HeaderOf;
    HeaderExactly(data);
    FirstErrorExactly(data, 0, e);
    RowsOnly(data, e);
    forall i: nat | i < HeaderOf(data).entryCount
      ensures EntryError(data, i) == Some(e) <==> RowFails(data, i, e)
      ensures EntryError(data, i) == None <==> RowHolds(data, i)
    {
      RowErrorExactly(data, i, e);
      RowHoldsExactly(data, i);
    }
    if k :|
      && 0 <= k < HeaderOf(data).entryCount && EntryError(data, k) == Some(e)
      && forall j | 0 <= j < k :: EntryError(data, j).None?
    {
      assert FirstBadRow(data, k, e);
    }
  }

  lemma RowsOnly(data: seq<Byte>, e: ExtractError)
    requires HeaderOk(data)
    ensures ExtractResult(data) == Err(e) <==> FirstError(data, 0) == Some(e)
  {
    hide FirstError, WordAt, PowerOfTwo, Fields;
  }

  lemma HeaderRefuses(data: seq<Byte>)
    requires !SoundHeader(data)
    ensures HeaderFails(data).Some? && ExtractResult(data) == Err(HeaderFails(data).value)
  {
    if |data| >= 32 {
      FieldWords(data, 0);
    }
    hide WordAt, PowerOfTwo, Fields;
  }
}
