/**
 The DTBO packer: a header, a table of fixed-size entries and the payloads, written into one
 preallocated buffer. `Layout` says what the finished buffer holds.
 */
module DtboPack {
  import opened Wrappers
  import opened ByteCodec

  const MAGIC: int := 0xD7B7AB1E
  const STRUCT_SIZE: int := 32

  datatype Metadata = Metadata(id: int, rev: int, custom: seq<int>)

  datatype Template = Template(headerSize: int, entrySize: int, pageSize: int, version: int, entries: seq<Metadata>)

  type Blob = seq<Byte>

  datatype PackError = CountMismatch | BadSizes | OutOfRange | BadCustom(index: nat)

  // ----- the finished image -----

  function Zeros(n: nat): (r: seq<Byte>)
    ensures |r| == n && forall k | 0 <= k < n :: r[k] == 0
  {
    seq(n, _ => 0)
  }

  function Concat(blobs: seq<Blob>): Blob {
    if blobs == [] then [] else Concat(blobs[..|blobs| - 1]) + blobs[|blobs| - 1]
  }

  function TableEnd(t: Template): int {
    t.headerSize + t.entrySize * |t.entries|
  }

  function TotalSize(t: Template, blobs: seq<Blob>): int {
    TableEnd(t) + |Concat(blobs)|
  }

  function HeaderWords(t: Template, blobs: seq<Blob>): (r: seq<int>)
    ensures |r| == 8
  {
    [MAGIC, TotalSize(t, blobs), t.headerSize, t.entrySize, |t.entries|, t.headerSize, t.pageSize, t.version]
  }

  /** Where payload `i` starts: behind the table and the payloads in front of it. */
  function PayloadAt(t: Template, blobs: seq<Blob>, i: nat): int
    requires i <= |blobs|
  {
    TableEnd(t) + |Concat(blobs[..i])|
  }

  function EntryWords(t: Template, blobs: seq<Blob>, i: nat): seq<int>
    requires i < |t.entries| && i < |blobs|
  {
    var m := t.entries[i];
    [|blobs[i]|, PayloadAt(t, blobs, i), m.id, m.rev] + m.custom
  }

  /** Structures of eight words, each padded with zeros to the entry size. */
  function Table(rows: seq<seq<int>>, entrySize: nat): seq<Byte>
    requires entrySize >= STRUCT_SIZE
  {
    if rows == [] then []
    else Table(rows[..|rows| - 1], entrySize) + Words(rows[|rows| - 1]) + Zeros(entrySize - STRUCT_SIZE)
  }

  function Rows(t: Template, blobs: seq<Blob>, n: nat): seq<seq<int>>
    requires n <= |t.entries| && n <= |blobs|
  {
    seq(n, i requires 0 <= i < n => EntryWords(t, blobs, i))
  }

  predicate SizesOk(t: Template) {
    t.headerSize >= STRUCT_SIZE && t.entrySize >= STRUCT_SIZE
  }

  function Layout(t: Template, blobs: seq<Blob>): seq<Byte>
    requires SizesOk(t) && |t.entries| == |blobs|
  {
    Words(HeaderWords(t, blobs)) + Zeros(t.headerSize - STRUCT_SIZE)
      + Table(Rows(t, blobs, |blobs|), t.entrySize) + Concat(blobs)
  }

  // ----- what the packer refuses -----

  function EntryProblem(t: Template, blobs: seq<Blob>, i: nat): Option<PackError>
    requires i < |t.entries| && i < |blobs|
  {
    if |t.entries[i].custom| != 4 then Some(BadCustom(i))
    else if !AllFit(EntryWords(t, blobs, i)) then Some(OutOfRange)
    else None
  }

  /** The error of the first entry that has one. */
  function FirstProblem(t: Template, blobs: seq<Blob>, i: nat): Option<PackError>
    requires |t.entries| == |blobs| && i <= |blobs|
    decreases |blobs| - i
  {
    if i == |blobs| then None
    else if EntryProblem(t, blobs, i).Some? then EntryProblem(t, blobs, i)
    else FirstProblem(t, blobs, i + 1)
  }

  function PackResult(t: Template, blobs: seq<Blob>): Result<seq<Byte>, PackError> {
    if |t.entries| != |blobs| then Err(CountMismatch)
    else if !SizesOk(t) then Err(BadSizes)
    else if !AllFit(HeaderWords(t, blobs)) then Err(OutOfRange)
    else
      match FirstProblem(t, blobs, 0)
      case Some(e) => Err(e)
      case None => Ok(Layout(t, blobs))
  }

  lemma {:induction false} FirstProblemNone(t: Template, blobs: seq<Blob>, i: nat)
    requires |t.entries| == |blobs| && i <= |blobs|
    ensures FirstProblem(t, blobs, i).None? <==> forall k | i <= k < |blobs| :: EntryProblem(t, blobs, k).None?
    decreases |blobs| - i
  {
    hide EntryProblem;
    if i < |blobs| {
      FirstProblemNone(t, blobs, i + 1);
    }
  }

  /** An unsigned word of 32 bits. */
  predicate IsUnsigned32(x: int) {
    0 <= x <= 0xFFFF_FFFF
  }

  /** Four custom words, and every number of the entry an unsigned word. */
  predicate EntryHolds(m: Metadata) {
    |m.custom| == 4 && IsUnsigned32(m.id) && IsUnsigned32(m.rev) && forall x | x in m.custom :: IsUnsigned32(x)
  }

  /** Packing succeeds exactly on matching counts, structures of 32 bytes and fields that fit their words. */
  lemma PacksExactly(t: Template, blobs: seq<Blob>)
    ensures PackResult(t, blobs).Ok? <==>
      && |t.entries| == |blobs| && t.headerSize >= 32 && t.entrySize >= 32
      && IsUnsigned32(t.headerSize + t.entrySize * |blobs| + |Concat(blobs)|)
      && IsUnsigned32(t.entrySize) && IsUnsigned32(t.pageSize) && IsUnsigned32(t.version)
      && forall m | m in t.entries :: EntryHolds(m)
  {
    forall m | m in t.entries
      ensures
        |m.custom| == 4 && Fits(m.id) && Fits(m.rev) && AllFit(m.custom) <==> EntryHolds(m)
    {
      assert forall i | 0 <= i < |m.custom| :: m.custom[i] in m.custom;
    }
    PacksFitting(t, blobs);
    hide PackResult, Concat, AllFit;
  }

  lemma PacksFitting(t: Template, blobs: seq<Blob>)
    ensures PackResult(t, blobs).Ok? <==>
      && |t.entries| == |blobs| && SizesOk(t)
      && Fits(TotalSize(t, blobs)) && Fits(t.entrySize) && Fits(t.pageSize) && Fits(t.version)
      && forall m | m in t.entries :: |m.custom| == 4 && Fits(m.id) && Fits(m.rev) && AllFit(m.custom)
  {
    if |t.entries| == |blobs| && SizesOk(t) {
      var h := HeaderWords(t, blobs);
      FirstProblemNone(t, blobs, 0);
      HeaderFits(t, blobs);
      if Fits(TotalSize(t, blobs)) {
        forall k | 0 <= k < |blobs|
          ensures EntryProblem(t, blobs, k).None? <==>
            var m := t.entries[k];
            |m.custom| == 4 && Fits(m.id) && Fits(m.rev) && AllFit(m.custom)
        {
          EntryFits(t, blobs, k);
        }
        assert forall m | m in t.entries :: exists k :: 0 <= k < |blobs| && t.entries[k] == m;
      }
    }
  }

  /** Entry `i` is the first that does not hold, and `e` says why. */
  predicate FirstBadEntry(t: Template, i: nat, e: PackError) {
    && i < |t.entries| && !EntryHolds(t.entries[i])
    && (forall k | 0 <= k < i :: EntryHolds(t.entries[k]))
    && e == if |t.entries[i].custom| != 4 then BadCustom(i) else OutOfRange
  }

  lemma EntryExactly(t: Template, blobs: seq<Blob>, k: nat)
    requires |t.entries| == |blobs| && SizesOk(t) && k < |blobs| && Fits(TotalSize(t, blobs))
    ensures
      EntryProblem(t, blobs, k) ==
      if EntryHolds(t.entries[k]) then None
      else if |t.entries[k].custom| != 4 then Some(BadCustom(k)) else Some(OutOfRange)
  {
    EntryFits(t, blobs, k);
    var m := t.entries[k];
    assert forall i | 0 <= i < |m.custom| :: m.custom[i] in m.custom;
    hide EntryWords;
  }

  lemma {:induction false} FirstProblemExactly(t: Template, blobs: seq<Blob>, i: nat, e: PackError)
    requires |t.entries| == |blobs| && i <= |blobs|
    ensures FirstProblem(t, blobs, i) == Some(e) <==>
      exists k :: i <= k < |blobs| && EntryProblem(t, blobs, k) == Some(e) && forall j | i <= j < k :: EntryProblem(t, blobs, j).None?
    decreases |blobs| - i
  {
    hide EntryProblem;
    if i < |blobs| {
      FirstProblemExactly(t, blobs, i + 1, e);
    }
  }

  /** Every refusal: the counts, the sizes and the header's numbers first, then the first bad entry. */
  lemma RefusesExactly(t: Template, blobs: seq<Blob>, e: PackError)
    ensures PackResult(t, blobs) == Err(e) <==>
      if |t.entries| != |blobs| then e == CountMismatch
      else if t.headerSize < 32 || t.entrySize < 32 then e == BadSizes
      else if !(&& IsUnsigned32(t.headerSize + t.entrySize * |blobs| + |Concat(blobs)|)
                && IsUnsigned32(t.entrySize) && IsUnsigned32(t.pageSize) && IsUnsigned32(t.version)) then e == OutOfRange
      else exists i :: FirstBadEntry(t, i, e)
  {
    hide Concat, HeaderWords, AllFit, FirstProblem, FirstBadEntry, EntryProblem;
    if |t.entries| == |blobs| && SizesOk(t) {
      HeaderFits(t, blobs);
      if Fits(TotalSize(t, blobs)) {
        BadEntryExactly(t, blobs, e);
      }
    }
  }

  lemma BadEntryExactly(t: Template, blobs: seq<Blob>, e: PackError)
    requires |t.entries| == |blobs| && SizesOk(t) && Fits(TotalSize(t, blobs))
    ensures FirstProblem(t, blobs, 0) == Some(e) <==> exists i :: FirstBadEntry(t, i, e)
  {
    hide EntryProblem, FirstProblem, EntryHolds, TotalSize;
    FirstProblemExactly(t, blobs, 0, e);
    forall k: nat | k < |blobs|
      ensures
        EntryProblem(t, blobs, k) ==
        if EntryHolds(t.entries[k]) then None
        else if |t.entries[k].custom| != 4 then Some(BadCustom(k)) else Some(OutOfRange)
    {
      EntryExactly(t, blobs, k);
    }
    if k :|
      && 0 <= k < |blobs| && EntryProblem(t, blobs, k) == Some(e)
      && forall j | 0 <= j < k :: EntryProblem(t, blobs, j).None?
    {
      assert FirstBadEntry(t, k, e);
    }
  }

  lemma HeaderFits(t: Template, blobs: seq<Blob>)
    requires |t.entries| == |blobs| && SizesOk(t)
    ensures AllFit(HeaderWords(t, blobs)) <==>
      Fits(TotalSize(t, blobs)) && Fits(t.entrySize) && Fits(t.pageSize) && Fits(t.version)
  {
    hide Concat;
    var h := HeaderWords(t, blobs);
    assert t.entrySize * |t.entries| >= |t.entries|;
    assert AllFit(h) <==>
      Fits(h[0]) && Fits(h[1]) && Fits(h[2]) && Fits(h[3]) && Fits(h[4]) && Fits(h[5]) && Fits(h[6]) && Fits(h[7]);
  }

  lemma EntryFits(t: Template, blobs: seq<Blob>, k: nat)
    requires |t.entries| == |blobs| && SizesOk(t) && k < |blobs| && Fits(TotalSize(t, blobs))
    ensures EntryProblem(t, blobs, k).None? <==>
      var m := t.entries[k];
      |m.custom| == 4 && Fits(m.id) && Fits(m.rev) && AllFit(m.custom)
  {
    var m := t.entries[k];
    var words := EntryWords(t, blobs, k);
    PayloadsGrow(blobs, k, |blobs|);
    assert blobs[..|blobs|] == blobs;
    assert t.entrySize * |t.entries| >= 0;
    assert Fits(words[0]) && Fits(words[1]);
    assert words[2] == m.id && words[3] == m.rev;
    assert forall j | 0 <= j < |m.custom| :: words[4 + j] == m.custom[j];
  }

  lemma {:induction false} PayloadsGrow(blobs: seq<Blob>, i: nat, j: nat)
    requires i < j <= |blobs|
    ensures |Concat(blobs[..i])| + |blobs[i]| <= |Concat(blobs[..j])|
    decreases j
  {
    assert blobs[..j][..j - 1] == blobs[..j - 1];
    if i < j - 1 {
      PayloadsGrow(blobs, i, j - 1);
    }
  }

  // ----- writing the buffer -----

  /** `output[at:at + len(bytes)] = bytes`, and `pack_into`: the rest of the buffer keeps its bytes. */
  method Write(output: array<Byte>, at: nat, bytes: seq<Byte>)
    requires at + |bytes| <= output.Length
    modifies output
    ensures output[..] == old(output[..at]) + bytes + old(output[at + |bytes|..])
  {
    var k := 0;
    while k < |bytes|
      invariant 0 <= k <= |bytes|
      invariant output[..at] == old(output[..at])
      invariant output[at..at + k] == bytes[..k]
      invariant output[at + k..] == old(output[at + k..])
    {
      output[at + k] := bytes[k];
      k := k + 1;
    }
    assert output[..] == output[..at] + output[at..at + k] + output[at + k..];
  }

  predicate IsRow(row: seq<int>) {
    |row| == 8
  }

  lemma {:induction false} TableLength(rows: seq<seq<int>>, entrySize: nat)
    requires entrySize >= STRUCT_SIZE && forall k | 0 <= k < |rows| :: IsRow(rows[k])
    ensures |Table(rows, entrySize)| == entrySize * |rows|
  {
    hide Words;
    if rows != [] {
      TableLength(rows[..|rows| - 1], entrySize);
      assert IsRow(rows[|rows| - 1]);
      assert entrySize * |rows| == entrySize * (|rows| - 1) + entrySize;
    }
  }

  /** The buffer after `i` entries: header, `i` table rows, zeros, `i` payloads, zeros. */
  ghost predicate Written(s: seq<Byte>, t: Template, blobs: seq<Blob>, i: nat, current: nat)
    requires SizesOk(t) && |t.entries| == |blobs| && i <= |blobs|
  {
    var head := Words(HeaderWords(t, blobs)) + Zeros(t.headerSize - STRUCT_SIZE);
    var table := Table(Rows(t, blobs, i), t.entrySize);
    var used := t.headerSize + t.entrySize * i;
    && |s| == TotalSize(t, blobs)
    && |table| == t.entrySize * i && used <= TableEnd(t)
    && current == PayloadAt(t, blobs, i) && TableEnd(t) <= current <= |s|
    && s == head + table + Zeros(TableEnd(t) - used) + Concat(blobs[..i]) + Zeros(|s| - current)
  }

  lemma TableGrows(t: Template, blobs: seq<Blob>, i: nat)
    requires SizesOk(t) && |t.entries| == |blobs| && i < |blobs|
    requires forall k | 0 <= k <= i :: |t.entries[k].custom| == 4
    ensures Table(Rows(t, blobs, i + 1), t.entrySize) ==
      Table(Rows(t, blobs, i), t.entrySize) + Words(EntryWords(t, blobs, i)) + Zeros(t.entrySize - STRUCT_SIZE)
    ensures |Table(Rows(t, blobs, i), t.entrySize)| == t.entrySize * i
    ensures |Table(Rows(t, blobs, i + 1), t.entrySize)| == t.entrySize * (i + 1)
  {
    hide EntryWords, Words, Zeros;
    var rows := Rows(t, blobs, i + 1);
    assert rows[..i] == Rows(t, blobs, i) && rows[i] == EntryWords(t, blobs, i);
    RowsAreRows(t, blobs, i + 1);
    RowsAreRows(t, blobs, i);
    TableStep(rows, t.entrySize);
    hide Table, Rows;
    TableLength(rows, t.entrySize);
    TableLength(Rows(t, blobs, i), t.entrySize);
  }

  lemma TableStep(rows: seq<seq<int>>, entrySize: nat)
    requires entrySize >= STRUCT_SIZE && rows != []
    ensures Table(rows, entrySize) ==
      Table(rows[..|rows| - 1], entrySize) + Words(rows[|rows| - 1]) + Zeros(entrySize - STRUCT_SIZE)
  {
    hide Words, Zeros;
  }

  lemma RowsAreRows(t: Template, blobs: seq<Blob>, n: nat)
    requires n <= |t.entries| && n <= |blobs|
    requires forall k | 0 <= k < n :: |t.entries[k].custom| == 4
    ensures |Rows(t, blobs, n)| == n && forall k | 0 <= k < n :: IsRow(Rows(t, blobs, n)[k])
  {
  }

  lemma OffsetsGrow(t: Template, blobs: seq<Blob>, i: nat)
    requires SizesOk(t) && |t.entries| == |blobs| && i < |blobs|
    ensures t.entrySize * (i + 1) == t.entrySize * i + t.entrySize
    ensures t.headerSize + t.entrySize * (i + 1) <= TableEnd(t)
    ensures PayloadAt(t, blobs, i + 1) == PayloadAt(t, blobs, i) + |blobs[i]| <= TotalSize(t, blobs)
    ensures Concat(blobs[..i + 1]) == Concat(blobs[..i]) + blobs[i]
  {
    assert blobs[..i + 1][..i] == blobs[..i];
    assert blobs[..|blobs|] == blobs;
    if i + 1 < |blobs| {
      PayloadsGrow(blobs, i, |blobs|);
    }
    assert t.entrySize * |blobs| == t.entrySize * (i + 1) + t.entrySize * (|blobs| - (i + 1));
    assert t.entrySize * (|blobs| - (i + 1)) >= 0;
  }

  /** The two writes of one turn, on the buffer as a byte string. */
  lemma OneEntry(s: seq<Byte>, s1: seq<Byte>, s2: seq<Byte>, t: Template, blobs: seq<Blob>, i: nat, current: nat)
    requires SizesOk(t) && |t.entries| == |blobs| && i < |blobs|
    requires forall k | 0 <= k <= i :: |t.entries[k].custom| == 4
    requires Written(s, t, blobs, i, current)
    requires
      var at := t.headerSize + t.entrySize * i;
      && at + STRUCT_SIZE <= |s| && s1 == s[..at] + Words(EntryWords(t, blobs, i)) + s[at + STRUCT_SIZE..]
      && current + |blobs[i]| <= |s| && s2 == s1[..current] + blobs[i] + s1[current + |blobs[i]|..]
    ensures Written(s2, t, blobs, i + 1, current + |blobs[i]|)
  {
    hide Table, Words, HeaderWords, EntryWords, Concat, Rows, Zeros, Written, PayloadAt, TableEnd, TotalSize;
    TableGrows(t, blobs, i);
    OffsetsGrow(t, blobs, i);
    WrittenSizes(s, t, blobs, i, current);
    OneEntryBytes(s, s1, s2, t, blobs, i, current);
    var head := Words(HeaderWords(t, blobs)) + Zeros(t.headerSize - STRUCT_SIZE);
    var table, row := Table(Rows(t, blobs, i), t.entrySize), Words(EntryWords(t, blobs, i));
    var gap := TableEnd(t) - (t.headerSize + t.entrySize * i);
    SplitZeros(t.entrySize - STRUCT_SIZE, gap - t.entrySize);
    Regroup(head, table, row, Zeros(t.entrySize - STRUCT_SIZE), Zeros(gap - t.entrySize));
    NextWritten(s2, t, blobs, i, current);
  }

  lemma WrittenSizes(s: seq<Byte>, t: Template, blobs: seq<Blob>, i: nat, current: nat)
    requires SizesOk(t) && |t.entries| == |blobs| && i <= |blobs| && Written(s, t, blobs, i, current)
    ensures |s| == TotalSize(t, blobs) && TableEnd(t) <= current == PayloadAt(t, blobs, i) <= |s|
  {
    hide Table, Words, HeaderWords, Concat, Rows, Zeros;
  }

  lemma OneEntryBytes(s: seq<Byte>, s1: seq<Byte>, s2: seq<Byte>, t: Template, blobs: seq<Blob>, i: nat, current: nat)
    requires SizesOk(t) && |t.entries| == |blobs| && i < |blobs| && |t.entries[i].custom| == 4
    requires Written(s, t, blobs, i, current)
    requires t.headerSize + t.entrySize * i + t.entrySize <= TableEnd(t)
    requires
      var at := t.headerSize + t.entrySize * i;
      && at + STRUCT_SIZE <= |s| && s1 == s[..at] + Words(EntryWords(t, blobs, i)) + s[at + STRUCT_SIZE..]
      && current + |blobs[i]| <= |s| && s2 == s1[..current] + blobs[i] + s1[current + |blobs[i]|..]
    ensures
      var front := Words(HeaderWords(t, blobs)) + Zeros(t.headerSize - STRUCT_SIZE) + Table(Rows(t, blobs, i), t.entrySize);
      var gap := TableEnd(t) - (t.headerSize + t.entrySize * i);
      s2 == front + Words(EntryWords(t, blobs, i)) + Zeros(gap - STRUCT_SIZE)
            + Concat(blobs[..i]) + blobs[i] + Zeros(|s| - current - |blobs[i]|)
  {
    hide Table, Words, HeaderWords, EntryWords, Concat, Rows, Zeros;
    var front := Words(HeaderWords(t, blobs)) + Zeros(t.headerSize - STRUCT_SIZE) + Table(Rows(t, blobs, i), t.entrySize);
    var gap := TableEnd(t) - (t.headerSize + t.entrySize * i);
    EntryWordsAreRow(t, blobs, i);
    assert t.headerSize + t.entrySize * i == |front|;
    TwoWrites(front, gap, Words(EntryWords(t, blobs, i)), Concat(blobs[..i]), |s| - current, blobs[i], s, s1, s2);
  }

  lemma EntryWordsAreRow(t: Template, blobs: seq<Blob>, i: nat)
    requires i < |t.entries| && i < |blobs| && |t.entries[i].custom| == 4
    ensures |EntryWords(t, blobs, i)| == 8
  {
  }

  lemma Regroup(a: seq<Byte>, b: seq<Byte>, c: seq<Byte>, d: seq<Byte>, e: seq<Byte>)
    ensures a + b + c + (d + e) == a + (b + c + d) + e
  {
  }

  lemma NextWritten(s: seq<Byte>, t: Template, blobs: seq<Blob>, i: nat, current: nat)
    requires SizesOk(t) && |t.entries| == |blobs| && i < |blobs|
    requires |s| == TotalSize(t, blobs) && TableEnd(t) <= current == PayloadAt(t, blobs, i)
    requires current + |blobs[i]| <= |s|
    requires
      && t.entrySize * (i + 1) == t.entrySize * i + t.entrySize
      && t.headerSize + t.entrySize * (i + 1) <= TableEnd(t)
      && PayloadAt(t, blobs, i + 1) == PayloadAt(t, blobs, i) + |blobs[i]|
      && Concat(blobs[..i + 1]) == Concat(blobs[..i]) + blobs[i]
      && |Table(Rows(t, blobs, i + 1), t.entrySize)| == t.entrySize * (i + 1)
    requires
      var head := Words(HeaderWords(t, blobs)) + Zeros(t.headerSize - STRUCT_SIZE);
      var gap := TableEnd(t) - (t.headerSize + t.entrySize * i);
      s == head + Table(Rows(t, blobs, i + 1), t.entrySize) + Zeros(gap - t.entrySize)
           + Concat(blobs[..i]) + blobs[i] + Zeros(|s| - current - |blobs[i]|)
    ensures Written(s, t, blobs, i + 1, current + |blobs[i]|)
  {
    hide Table, Words, HeaderWords, EntryWords, Concat, Rows, Zeros, PayloadAt, TotalSize;
    var head := Words(HeaderWords(t, blobs)) + Zeros(t.headerSize - STRUCT_SIZE);
    var table := Table(Rows(t, blobs, i + 1), t.entrySize);
    var gap := TableEnd(t) - (t.headerSize + t.entrySize * i);
    var front, back := head + table + Zeros(gap - t.entrySize), Zeros(|s| - current - |blobs[i]|);
    assert front + Concat(blobs[..i]) + blobs[i] + back == front + (Concat(blobs[..i]) + blobs[i]) + back;
  }

  /** A row written into the first gap and a payload into the second. */
  lemma TwoWrites(
      front: seq<Byte>, gap: nat, row: seq<Byte>, done: seq<Byte>, left: nat, blob: seq<Byte>,
      s: seq<Byte>, s1: seq<Byte>, s2: seq<Byte>)
    requires |row| <= gap && |blob| <= left
    requires s == front + Zeros(gap) + done + Zeros(left)
    requires s1 == s[..|front|] + row + s[|front| + |row|..]
    requires
      var at := |front| + gap + |done|;
      |s1| == at + left && s2 == s1[..at] + blob + s1[at + |blob|..]
    ensures s2 == front + row + Zeros(gap - |row|) + done + blob + Zeros(left - |blob|)
  {
    hide Zeros;
    assert s == front + Zeros(gap) + (done + Zeros(left));
    FillGap(front, gap, row, done + Zeros(left));
    var front1 := front + row + Zeros(gap - |row|) + done;
    assert s1 == front1 + Zeros(left) + [];
    FillGap(front1, left, blob, []);
    assert s2 == front1 + blob + Zeros(left - |blob|) + [];
  }

  lemma SplitZeros(a: nat, b: nat)
    ensures Zeros(a + b) == Zeros(a) + Zeros(b)
  {
  }

  /** Writing at the start of a run of zeros. */
  lemma FillGap(front: seq<Byte>, n: nat, bytes: seq<Byte>, back: seq<Byte>)
    requires |bytes| <= n
    ensures
      var s := front + Zeros(n) + back;
      s[..|front|] + bytes + s[|front| + |bytes|..] == front + bytes + Zeros(n - |bytes|) + back
  {
    var s := front + Zeros(n) + back;
    assert s[..|front|] == front;
    assert s[|front| + |bytes|..] == Zeros(n - |bytes|) + back;
  }

  /** `sum(map(len, blobs))` */
  method SumOfLengths(blobs: seq<Blob>) returns (sum: nat)
    ensures sum == |Concat(blobs)|
  {
    sum := 0;
    for i := 0 to |blobs|
      invariant sum == |Concat(blobs[..i])|
    {
      assert blobs[..i + 1][..i] == blobs[..i];
      sum := sum + |blobs[i]|;
    }
    assert blobs[..|blobs|] == blobs;
  }

  /** The packer fills its buffer with exactly the layout, or fails as the rules say. */
  method Pack(t: Template, blobs: seq<Blob>) returns (r: Result<seq<Byte>, PackError>)
    ensures r == PackResult(t, blobs)
  {
    hide Table, Words, Rows, Concat, EntryWords, Fits, WordAt, Layout, AllFit, Zeros, Written, PayloadAt, EntryProblem;
    if |t.entries| != |blobs| {
      return Err(CountMismatch);
    }
    if t.headerSize < STRUCT_SIZE || t.entrySize < STRUCT_SIZE {
      return Err(BadSizes);
    }
    var payloadOffset := t.headerSize + t.entrySize * |t.entries|;
    var lengths := SumOfLengths(blobs);
    var totalSize := payloadOffset + lengths;
    assert t.entrySize * |t.entries| >= 0;
    var output := new Byte[totalSize](_ => 0);
    var header := [MAGIC, totalSize, t.headerSize, t.entrySize, |t.entries|, t.headerSize, t.pageSize, t.version];
    assert header == HeaderWords(t, blobs);
    if !AllFit(header) {
      return Err(OutOfRange);
    }
    assert output[STRUCT_SIZE..] == Zeros(totalSize - STRUCT_SIZE) by {
      AreZeros(output[STRUCT_SIZE..]);
    }
    Write(output, 0, Words(header));
    HeaderWritten(output[..], t, blobs);
    var current: nat := payloadOffset;
    for index := 0 to |blobs|
      invariant fresh(output) && output.Length == totalSize
      invariant Written(output[..], t, blobs, index, current)
      invariant forall k | 0 <= k < index :: |t.entries[k].custom| == 4
      invariant FirstProblem(t, blobs, index) == FirstProblem(t, blobs, 0)
    {
      var metadata, blob := t.entries[index], blobs[index];
      WrittenBounds(output[..], t, blobs, index, current);
      if |metadata.custom| != 4 {
        return Err(BadCustom(index));
      }
      var words := [|blob|, current, metadata.id, metadata.rev] + metadata.custom;
      IsEntryWords(t, blobs, index, current, words);
      if !AllFit(words) {
        return Err(OutOfRange);
      }
      ghost var s := output[..];
      Write(output, t.headerSize + index * t.entrySize, Words(words));
      ghost var s1 := output[..];
      Write(output, current, blob);
      OneEntry(s, s1, output[..], t, blobs, index, current);
      current := current + |blob|;
    }
    WrittenIsLayout(output[..], t, blobs, current);
    r := Ok(output[..]);
  }

  lemma AreZeros(s: seq<Byte>)
    requires forall k | 0 <= k < |s| :: s[k] == 0
    ensures s == Zeros(|s|)
  {
  }

  /** Both writes of turn `i` stay inside the buffer. */
  lemma WrittenBounds(s: seq<Byte>, t: Template, blobs: seq<Blob>, i: nat, current: nat)
    requires SizesOk(t) && |t.entries| == |blobs| && i < |blobs| && Written(s, t, blobs, i, current)
    ensures t.headerSize + i * t.entrySize + STRUCT_SIZE <= |s| && current + |blobs[i]| <= |s|
    ensures current == PayloadAt(t, blobs, i)
    ensures t.headerSize + i * t.entrySize >= 0
    ensures |t.entries[i].custom| != 4 ==> EntryProblem(t, blobs, i) == Some(BadCustom(i))
    ensures |t.entries[i].custom| == 4 ==>
      EntryProblem(t, blobs, i) == if AllFit(EntryWords(t, blobs, i)) then None else Some(OutOfRange)
  {
    OffsetsGrow(t, blobs, i);
    WrittenSize(s, t, blobs, i, current);
    hide Written, Concat, EntryWords, AllFit, PayloadAt, TotalSize;
    assert t.entrySize * i == i * t.entrySize >= 0;
  }

  lemma WrittenSize(s: seq<Byte>, t: Template, blobs: seq<Blob>, i: nat, current: nat)
    requires SizesOk(t) && |t.entries| == |blobs| && i <= |blobs| && Written(s, t, blobs, i, current)
    ensures |s| == TotalSize(t, blobs) && current == PayloadAt(t, blobs, i) && TableEnd(t) <= |s|
  {
    hide Table, Words, Rows, Concat, Zeros, HeaderWords;
  }

  lemma IsEntryWords(t: Template, blobs: seq<Blob>, i: nat, current: nat, words: seq<int>)
    requires i < |t.entries| && i < |blobs| && current == PayloadAt(t, blobs, i)
    requires words == [|blobs[i]|, current, t.entries[i].id, t.entries[i].rev] + t.entries[i].custom
    ensures words == EntryWords(t, blobs, i)
  {
  }

  lemma HeaderWritten(s: seq<Byte>, t: Template, blobs: seq<Blob>)
    requires SizesOk(t) && |t.entries| == |blobs| && TotalSize(t, blobs) >= TableEnd(t) >= STRUCT_SIZE
    requires
      var n := TotalSize(t, blobs);
      s == Words(HeaderWords(t, blobs)) + Zeros(n - STRUCT_SIZE)
    ensures Written(s, t, blobs, 0, TableEnd(t))
  {
    hide Words;
    assert blobs[..0] == [];
    assert Rows(t, blobs, 0) == [];
    var table := t.entrySize * |t.entries|;
    assert TableEnd(t) == t.headerSize + table && table >= 0;
    SplitZeros(t.headerSize - STRUCT_SIZE, TotalSize(t, blobs) - t.headerSize);
    SplitZeros(table, |Concat(blobs)|);
  }

  lemma WrittenIsLayout(s: seq<Byte>, t: Template, blobs: seq<Blob>, current: nat)
    requires SizesOk(t) && |t.entries| == |blobs| && Written(s, t, blobs, |blobs|, current)
    ensures s == Layout(t, blobs)
  {
    hide Words, Table, Rows, Concat;
    assert blobs[..|blobs|] == blobs;
  }
}
