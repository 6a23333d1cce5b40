/** The table file format (FileManager::write and FileManager::read).
    The file starts with a 4-byte page count; page pageNum (counted from 1)
    sits in a slot at DATA_PAGE_OFFSET + (pageNum - 1) * SLOT_SIZE that
    holds the page's used count as 8 bytes followed by all 4096 bytes of
    its data area. write packs the serialized rows greedily into pages;
    read decodes each page's used bytes row after row. */
module FileManager {
  import opened Bytes
  import opened Types
  import opened Seqs
  import opened Pages
  import opened Storage
  import opened RowCodec
  import opened Packing

  const HEADER_SIZE: nat := 4
  const DATA_PAGE_OFFSET: nat := PAGE_SIZE + HEADER_SIZE
  /** sizeof(size_t): the width of a page's stored used count. */
  const USED_SIZE: nat := 8
  const SLOT_SIZE: nat := USED_SIZE + PAGE_SIZE

  /** Where page pageNum is stored: slot 1 starts right after the header's
      page-sized area, and each later slot right after the one before. */
  function SlotOffset(pageNum: nat): (o: nat)
    requires pageNum >= 1
    ensures DATA_PAGE_OFFSET <= o
    ensures pageNum == 1 ==> o == DATA_PAGE_OFFSET
  {
    DATA_PAGE_OFFSET + (pageNum - 1) * SLOT_SIZE
  }

  // ---------------------------------------------------------------------
  // Reading the image

  /** The page count readHeader returns: the first four bytes, or 0 when
      the file is too short to hold them. */
  function HeaderCount(b: seq<byte>): (count: uint32)
    ensures HEADER_SIZE <= |b| ==> Uint32Bytes(count) == b[..HEADER_SIZE]
    ensures |b| < HEADER_SIZE ==> count == 0
  {
    if HEADER_SIZE <= |b| then Uint32Of(b[..HEADER_SIZE]) else 0
  }

  /** readPage succeeds: both the used count and the whole data area are there. */
  predicate SlotReadable(b: seq<byte>, pageNum: nat)
    requires pageNum >= 1
  {
    SlotOffset(pageNum) + SLOT_SIZE <= |b|
  }

  function Slot(b: seq<byte>, pageNum: nat): seq<byte>
    requires pageNum >= 1 && SlotReadable(b, pageNum)
  {
    b[SlotOffset(pageNum)..SlotOffset(pageNum) + SLOT_SIZE]
  }

  /** The used count readPage loads from a readable slot. */
  function SlotUsed(b: seq<byte>, pageNum: nat): uint64
    requires pageNum >= 1 && SlotReadable(b, pageNum)
  {
    Uint64Of(Slot(b, pageNum)[..USED_SIZE])
  }

  /** The data area readPage loads from a readable slot. */
  function SlotData(b: seq<byte>, pageNum: nat): seq<byte>
    requires pageNum >= 1 && SlotReadable(b, pageNum)
  {
    Slot(b, pageNum)[USED_SIZE..]
  }

  /** A readable slot's used count stays within the page, so read's row
      loop stays inside the data area. */
  predicate SlotSane(b: seq<byte>, pageNum: nat)
    requires pageNum >= 1
  {
    SlotReadable(b, pageNum) ==> SlotUsed(b, pageNum) as nat <= PAGE_SIZE
  }

  predicate SlotsSane(b: seq<byte>, count: nat)
  {
    forall n :: 1 <= n <= count ==> SlotSane(b, n)
  }

  /** The rows read's inner loop takes from a page's used bytes: rows are
      decoded one after another until deserializeRow returns 0 or the bytes
      run out. */
  function DecodePage(buf: seq<byte>, schema: Schema): (rows: TableData)
    ensures |rows| <= |buf|
    ensures forall i :: 0 <= i < |rows| ==> Conforms(rows[i], schema)
    decreases |buf|
  {
    var d := Deserialized(buf, schema);
    if d.end == 0 then []
    else
      DeserializedConforms(buf, schema);
      [d.row] + DecodePage(buf[d.end..], schema)
  }

  /** The rows read takes from page pageNum: none when readPage fails. */
  function PageRows(b: seq<byte>, schema: Schema, pageNum: nat): TableData
    requires pageNum >= 1 && SlotSane(b, pageNum)
  {
    if SlotReadable(b, pageNum) then DecodePage(SlotData(b, pageNum)[..SlotUsed(b, pageNum)], schema) else []
  }

  /** The rows of pages 1 to count, in page order. */
  function ReadPages(b: seq<byte>, schema: Schema, count: nat): (rows: TableData)
    requires SlotsSane(b, count)
    ensures forall i :: 0 <= i < |rows| ==> Conforms(rows[i], schema)
  {
    if count == 0 then [] else ReadPages(b, schema, count - 1) + PageRows(b, schema, count)
  }

  /** The table read loads from a file image. */
  function ReadImage(b: seq<byte>, schema: Schema): TableData
    requires SlotsSane(b, HeaderCount(b))
  {
    ReadPages(b, schema, HeaderCount(b))
  }

  /** Slots follow one another past the header without overlapping it or
      each other. */
  lemma SlotsDisjoint(m: nat, n: nat)
    requires 1 <= m < n
    ensures HEADER_SIZE <= SlotOffset(m)
    ensures SlotOffset(m) + SLOT_SIZE <= SlotOffset(n)
  {
  }

  /** A file too short to hold the header reads as an empty table. */
  lemma ShortHeaderReadsNothing(b: seq<byte>, schema: Schema)
    requires |b| < HEADER_SIZE
    ensures SlotsSane(b, HeaderCount(b)) && ReadImage(b, schema) == []
  {
  }

  /** Sane slots up to count are sane up to any n below it. */
  lemma SaneUpTo(b: seq<byte>, count: nat, n: nat)
    requires n <= count && SlotsSane(b, count)
    ensures SlotsSane(b, n)
  {
  }

  /** Reading one page more appends that page's rows. */
  lemma ReadPagesNext(b: seq<byte>, schema: Schema, n: nat)
    requires 1 <= n && SlotsSane(b, n)
    ensures SlotsSane(b, n - 1) && SlotSane(b, n)
    ensures ReadPages(b, schema, n) == ReadPages(b, schema, n - 1) + PageRows(b, schema, n)
  {
  }

  /** A page readPage cannot load adds no rows. */
  lemma UnreadablePageEmpty(b: seq<byte>, schema: Schema, count: nat)
    requires 1 <= count && SlotsSane(b, count) && !SlotReadable(b, count)
    ensures SlotsSane(b, count - 1)
    ensures ReadPages(b, schema, count) == ReadPages(b, schema, count - 1)
  {
    ReadPagesNext(b, schema, count);
    assert PageRows(b, schema, count) == [];
    assert ReadPages(b, schema, count - 1) + [] == ReadPages(b, schema, count - 1);
  }

  /** Once readPage fails for lack of bytes, so does it for every later
      page: those pages add no rows to what the earlier pages gave. */
  lemma {:induction false} ShortFileTail(b: seq<byte>, schema: Schema, n: nat, m: nat)
    requires 1 <= n <= m && SlotsSane(b, m) && !SlotReadable(b, n)
    ensures ReadPages(b, schema, m) == ReadPages(b, schema, n - 1)
    decreases m
  {
    if m > n {
      SlotsDisjoint(n, m);
      UnreadablePageEmpty(b, schema, m);
      ShortFileTail(b, schema, n, m - 1);
    } else {
      UnreadablePageEmpty(b, schema, n);
    }
  }

  // ---------------------------------------------------------------------
  // Packing rows into pages

  /** The bytes serializeRow leaves in write's page-sized buffer. */
  function RowImage(row: Row): seq<byte>
  {
    Serialized(row, PAGE_SIZE)
  }

  /** The size serializeRow returns for row in write: 0 when it cannot be stored. */
  function RowSize(row: Row): nat
  {
    |RowImage(row)|
  }

  /** The used bytes of a page that holds rows: their images back to back. */
  function PageImage(rows: TableData): seq<byte>
  {
    if rows == [] then [] else RowImage(rows[0]) + PageImage(rows[1..])
  }

  /** The rows of each page write stores, in page order. */
  function Groups(rows: TableData): seq<TableData>
  {
    PackFrom(rows, [], RowSize)
  }

  /** Slot pageNum holds a page whose used bytes are content. */
  predicate SlotHolds(b: seq<byte>, pageNum: nat, content: seq<byte>)
    requires pageNum >= 1
  {
    SlotReadable(b, pageNum) && |content| <= PAGE_SIZE
    && Slot(b, pageNum)[..USED_SIZE] == Uint64Bytes(|content|)
    && Slot(b, pageNum)[USED_SIZE..USED_SIZE + |content|] == content
  }

  /** Slot k + 1 holds the page of groups[k], for every k. */
  predicate HoldsGroups(b: seq<byte>, groups: seq<TableData>)
  {
    forall k :: 0 <= k < |groups| ==> SlotHolds(b, k + 1, PageImage(groups[k]))
  }

  /** What write leaves in the file for rows: the page count in the header
      (as a uint32_t) and every page in its slot. */
  predicate Stores(b: seq<byte>, rows: TableData)
  {
    HEADER_SIZE <= |b| && b[..HEADER_SIZE] == Uint32Bytes(Truncate32(|Groups(rows)|))
    && HoldsGroups(b, Groups(rows))
  }

  // ---------------------------------------------------------------------
  // Properties of the packing

  lemma {:induction false} PageImageSnoc(rows: TableData, r: Row)
    ensures PageImage(rows + [r]) == PageImage(rows) + RowImage(r)
  {
    if rows == [] {
      assert [] + [r] == [r];
      assert [r][1..] == [];
    } else {
      assert (rows + [r])[0] == rows[0];
      assert (rows + [r])[1..] == rows[1..] + [r];
      PageImageSnoc(rows[1..], r);
    }
  }

  /** A page's used bytes are the sum of its rows' sizes. */
  lemma {:induction false} PageImageSize(rows: TableData)
    ensures |PageImage(rows)| == Used(rows, RowSize)
  {
    if rows != [] {
      PageImageSize(rows[1..]);
    }
  }

  /** write's pages: they hold exactly the rows serializeRow accepts, in
      their order, each page's used bytes are non-zero and fit the page,
      and there are no more pages than stored rows. */
  lemma GroupsShape(rows: TableData)
    ensures Flatten(Groups(rows)) == Kept(rows, RowSize)
    ensures forall k :: 0 <= k < |Groups(rows)| ==> 0 < |PageImage(Groups(rows)[k])| <= PAGE_SIZE
    ensures |Groups(rows)| <= |Kept(rows, RowSize)|
  {
    PackFlatten(rows, [], RowSize);
    assert [] + Kept(rows, RowSize) == Kept(rows, RowSize);
    PackFits(rows, [], RowSize);
    PackCount(rows, [], RowSize);
    forall k | 0 <= k < |Groups(rows)|
      ensures 0 < |PageImage(Groups(rows)[k])| <= PAGE_SIZE
    {
      PageImageSize(Groups(rows)[k]);
    }
  }

  /** The rows a reader can take back: of the schema's types, with string
      sizes a uint32_t can hold, and accepted by serializeRow. */
  predicate Recoverable(row: Row, schema: Schema)
  {
    Conforms(row, schema) && LengthsRepresentable(row) && RowImage(row) != []
  }

  /** read's row loop recovers exactly the rows of a page write filled. */
  lemma {:induction false} DecodePageRoundTrip(rows: TableData, schema: Schema)
    requires forall r :: r in rows ==> Recoverable(r, schema)
    ensures DecodePage(PageImage(rows), schema) == rows
  {
    if rows != [] {
      var x, rest := rows[0], PageImage(rows[1..]);
      var buf := RowImage(x) + rest;
      assert x in rows;
      RowRoundTrip(x, schema, PAGE_SIZE, rest);
      assert buf[|RowImage(x)|..] == rest;
      assert DecodePage(buf, schema) == [x] + DecodePage(rest, schema);
      assert forall r :: r in rows[1..] ==> r in rows;
      DecodePageRoundTrip(rows[1..], schema);
      assert rows == [x] + rows[1..];
    }
  }

  /** What read sees in a slot write filled. */
  lemma SlotContents(b: seq<byte>, pageNum: nat, content: seq<byte>)
    requires pageNum >= 1 && SlotHolds(b, pageNum, content)
    ensures SlotReadable(b, pageNum) && SlotSane(b, pageNum)
    ensures SlotUsed(b, pageNum) as nat == |content|
    ensures SlotData(b, pageNum)[..|content|] == content
  {
    Uint64RoundTrip(|content|);
    assert SlotData(b, pageNum)[..|content|] == Slot(b, pageNum)[USED_SIZE..USED_SIZE + |content|];
  }

  /** read takes back the rows of a page write stored in slot pageNum. */
  lemma PageRowsRoundTrip(b: seq<byte>, schema: Schema, pageNum: nat, rows: TableData)
    requires pageNum >= 1 && SlotHolds(b, pageNum, PageImage(rows))
    requires forall r :: r in rows ==> Recoverable(r, schema)
    ensures SlotSane(b, pageNum) && PageRows(b, schema, pageNum) == rows
  {
    SlotContents(b, pageNum, PageImage(rows));
    DecodePageRoundTrip(rows, schema);
  }

  /** Reading the first count pages, each of which read takes back as
      the corresponding group, gives the groups' rows in page order. */
  lemma {:induction false} ReadPagesRoundTrip(b: seq<byte>, schema: Schema, groups: seq<TableData>, count: nat)
    requires count <= |groups|
    requires forall n :: 1 <= n <= count ==> SlotSane(b, n) && PageRows(b, schema, n) == groups[n - 1]
    ensures SlotsSane(b, count)
    ensures ReadPages(b, schema, count) == Flatten(groups[..count])
  {
    if count == 0 {
      assert groups[..0] == [];
    } else {
      ReadPagesRoundTrip(b, schema, groups, count - 1);
      FlattenTakeSnoc(groups, count - 1);
    }
  }

  /** Every row on one of write's pages is one read can take back. */
  lemma GroupRecoverable(rows: TableData, schema: Schema, k: nat)
    requires forall r :: r in rows ==> Conforms(r, schema) && LengthsRepresentable(r)
    requires k < |Groups(rows)|
    ensures forall r :: r in Groups(rows)[k] ==> Recoverable(r, schema)
  {
    var groups := Groups(rows);
    GroupsShape(rows);
    forall r | r in groups[k]
      ensures Recoverable(r, schema)
    {
      FlattenMembers(groups, k, r);
      assert r in Kept(rows, RowSize);
      FilterMembers(rows, Stored(RowSize), r);
      assert r in rows && RowSize(r) > 0;
    }
  }

  /** Page n of what write stored for rows reads back as the n-th group. */
  lemma StoredPageRoundTrip(b: seq<byte>, rows: TableData, schema: Schema, n: nat)
    requires forall r :: r in rows ==> Conforms(r, schema) && LengthsRepresentable(r)
    requires HoldsGroups(b, Groups(rows)) && 1 <= n <= |Groups(rows)|
    ensures SlotSane(b, n) && PageRows(b, schema, n) == Groups(rows)[n - 1]
  {
    var group := Groups(rows)[n - 1];
    GroupRecoverable(rows, schema, n - 1);
    assert SlotHolds(b, n, PageImage(group));
    PageRowsRoundTrip(b, schema, n, group);
  }

  /** Persistence: read, applied to what write stored for rows, loads back
      exactly the rows serializeRow accepted, in their order, provided the
      rows match the schema, their strings' sizes fit a uint32_t and the
      page count fits the uint32_t header. */
  lemma PersistenceRoundTrip(b: seq<byte>, rows: TableData, schema: Schema)
    requires forall r :: r in rows ==> Conforms(r, schema) && LengthsRepresentable(r)
    requires |Groups(rows)| < 0x1_0000_0000
    requires Stores(b, rows)
    ensures SlotsSane(b, HeaderCount(b))
    ensures ReadImage(b, schema) == Kept(rows, RowSize)
  {
    var groups := Groups(rows);
    assert HeaderCount(b) as nat == |groups| by {
      Uint32RoundTrip(|groups|);
    }
    forall n | 1 <= n <= |groups|
      ensures SlotSane(b, n) && PageRows(b, schema, n) == groups[n - 1]
    {
      StoredPageRoundTrip(b, rows, schema, n);
    }
    ReadPagesRoundTrip(b, schema, groups, |groups|);
    GroupsShape(rows);
    assert groups[..|groups|] == groups;
  }

  // ---------------------------------------------------------------------
  // Writing the image

  /** Writing the header: the count is read back and no slot changes. */
  lemma HeaderWritten(b: seq<byte>, groups: seq<TableData>, count: uint32)
    requires HoldsGroups(b, groups)
    ensures HEADER_SIZE <= |Overwrite(b, 0, Uint32Bytes(count))|
    ensures Overwrite(b, 0, Uint32Bytes(count))[..HEADER_SIZE] == Uint32Bytes(count)
    ensures HoldsGroups(Overwrite(b, 0, Uint32Bytes(count)), groups)
  {
    var r := Overwrite(b, 0, Uint32Bytes(count));
    OverwriteReadBack(b, 0, Uint32Bytes(count));
    forall k | 0 <= k < |groups|
      ensures SlotHolds(r, k + 1, PageImage(groups[k]))
    {
      assert SlotHolds(b, k + 1, PageImage(groups[k]));
      OverwriteFrame(b, 0, Uint32Bytes(count), SlotOffset(k + 1), SlotOffset(k + 1) + SLOT_SIZE);
      SameSlotHolds(b, r, k + 1, PageImage(groups[k]));
    }
  }

  /** The two writes of writePage into slot n leave every earlier slot alone. */
  lemma SlotWrittenFrame(b: seq<byte>, n: nat, used: seq<byte>, data: seq<byte>, k: nat)
    requires 1 <= k < n && |used| == USED_SIZE && |data| == PAGE_SIZE
    requires SlotReadable(b, k)
    ensures SlotReadable(Overwrite(Overwrite(b, SlotOffset(n), used), SlotOffset(n) + USED_SIZE, data), k)
    ensures Slot(Overwrite(Overwrite(b, SlotOffset(n), used), SlotOffset(n) + USED_SIZE, data), k) == Slot(b, k)
  {
    var b1 := Overwrite(b, SlotOffset(n), used);
    OverwriteFrame(b, SlotOffset(n), used, SlotOffset(k), SlotOffset(k) + SLOT_SIZE);
    OverwriteFrame(b1, SlotOffset(n) + USED_SIZE, data, SlotOffset(k), SlotOffset(k) + SLOT_SIZE);
  }

  /** The two writes of writePage leave slot n holding the page. */
  lemma SlotWritten(b: seq<byte>, n: nat, used: nat, data: seq<byte>)
    requires n >= 1 && used <= PAGE_SIZE && |data| == PAGE_SIZE
    ensures SlotHolds(Overwrite(Overwrite(b, SlotOffset(n), Uint64Bytes(used)), SlotOffset(n) + USED_SIZE, data), n, data[..used])
  {
    var off := SlotOffset(n);
    var b1 := Overwrite(b, off, Uint64Bytes(used));
    var b2 := Overwrite(b1, off + USED_SIZE, data);
    OverwriteReadBack(b, off, Uint64Bytes(used));
    OverwriteFrame(b1, off + USED_SIZE, data, off, off + USED_SIZE);
    OverwriteReadBack(b1, off + USED_SIZE, data);
    assert Slot(b2, n)[..USED_SIZE] == b2[off..off + USED_SIZE];
    assert Slot(b2, n)[USED_SIZE..USED_SIZE + used] == b2[off + USED_SIZE..off + USED_SIZE + PAGE_SIZE][..used];
  }

  /** The two writes of writePage into slot n = |groups| + 1 keep every earlier slot. */
  lemma EarlierSlotsKept(b: seq<byte>, groups: seq<TableData>, n: nat, used: seq<byte>, data: seq<byte>)
    requires HoldsGroups(b, groups) && n == |groups| + 1 && |used| == USED_SIZE && |data| == PAGE_SIZE
    ensures HoldsGroups(Overwrite(Overwrite(b, SlotOffset(n), used), SlotOffset(n) + USED_SIZE, data), groups)
  {
    var r := Overwrite(Overwrite(b, SlotOffset(n), used), SlotOffset(n) + USED_SIZE, data);
    forall k | 0 <= k < |groups|
      ensures SlotHolds(r, k + 1, PageImage(groups[k]))
    {
      assert SlotHolds(b, k + 1, PageImage(groups[k]));
      SlotWrittenFrame(b, n, used, data, k + 1);
      SameSlotHolds(b, r, k + 1, PageImage(groups[k]));
    }
  }

  /** A slot whose bytes are unchanged still holds what it held. */
  lemma SameSlotHolds(b: seq<byte>, r: seq<byte>, k: nat, content: seq<byte>)
    requires k >= 1 && SlotHolds(b, k, content)
    requires SlotReadable(r, k) && Slot(r, k) == Slot(b, k)
    ensures SlotHolds(r, k, content)
  {
  }

  /** A file that holds groups and holds cur in the next slot holds groups + [cur]. */
  lemma HoldsSnoc(b: seq<byte>, groups: seq<TableData>, cur: TableData)
    requires HoldsGroups(b, groups) && SlotHolds(b, |groups| + 1, PageImage(cur))
    ensures HoldsGroups(b, groups + [cur])
  {
    forall k | 0 <= k < |groups| + 1
      ensures SlotHolds(b, k + 1, PageImage((groups + [cur])[k]))
    {
      if k < |groups| {
        assert (groups + [cur])[k] == groups[k];
      } else {
        assert (groups + [cur])[k] == cur;
      }
    }
  }

  /** Sealing the current page as page |groups| + 1 extends what the file holds. */
  lemma PageSealed(b: seq<byte>, groups: seq<TableData>, cur: TableData, n: nat, used: nat, data: seq<byte>)
    requires HoldsGroups(b, groups) && n == |groups| + 1
    requires used <= PAGE_SIZE && |data| == PAGE_SIZE && data[..used] == PageImage(cur)
    ensures HoldsGroups(Overwrite(Overwrite(b, SlotOffset(n), Uint64Bytes(used)), SlotOffset(n) + USED_SIZE, data), groups + [cur])
  {
    var r := Overwrite(Overwrite(b, SlotOffset(n), Uint64Bytes(used)), SlotOffset(n) + USED_SIZE, data);
    SlotWritten(b, n, used, data);
    assert SlotHolds(r, n, PageImage(cur)) by {
      assert SlotHolds(r, n, data[..used]);
    }
    EarlierSlotsKept(b, groups, n, Uint64Bytes(used), data);
    HoldsSnoc(r, groups, cur);
  }

  /** Appending a row's image after the page's used bytes gives the image
      of the page with the row added. */
  lemma RowAppended(data: seq<byte>, cur: TableData, r: Row)
    requires |PageImage(cur)| + |RowImage(r)| <= |data|
    requires data[..|PageImage(cur)|] == PageImage(cur)
    ensures Spliced(data, |PageImage(cur)|, RowImage(r))[..|PageImage(cur)| + |RowImage(r)|] == PageImage(cur + [r])
  {
    PageImageSnoc(cur, r);
    SplicedParts(data, |PageImage(cur)|, RowImage(r), |PageImage(cur)| + |RowImage(r)|);
  }

  // ---------------------------------------------------------------------
  // The FileManager operations

  /** FileManager::writeHeader: the page count as four bytes at the start. */
  method WriteHeader(file: File, pageCount: uint32)
    modifies file
    ensures file.bytes == Overwrite(old(file.bytes), 0, Uint32Bytes(pageCount))
  {
    file.WriteAt(0, Uint32Bytes(pageCount));
  }

  /** FileManager::readHeader: the page count, or 0 when it cannot be read. */
  method ReadHeader(file: File) returns (pageCount: uint32)
    ensures pageCount == HeaderCount(file.bytes)
    ensures |file.bytes| < HEADER_SIZE ==> pageCount == 0
    ensures HEADER_SIZE <= |file.bytes| ==> Uint32Bytes(pageCount) == file.bytes[..HEADER_SIZE]
  {
    var ok, raw := file.ReadAt(0, HEADER_SIZE);
    if !ok {
      return 0;
    }
    pageCount := Uint32Of(raw);
  }

  /** A header written with writeHeader reads back as the same count. */
  lemma HeaderRoundTrip(b: seq<byte>, count: uint32)
    ensures HeaderCount(Overwrite(b, 0, Uint32Bytes(count))) == count
  {
    var r := Overwrite(b, 0, Uint32Bytes(count));
    OverwriteReadBack(b, 0, Uint32Bytes(count));
    assert r[..HEADER_SIZE] == r[0..HEADER_SIZE];
    Uint32RoundTrip(count);
  }

  /** FileManager::writePage: the used count, then the whole data area, at
      the page's slot. */
  method WritePage(file: File, page: Page, pageNum: nat)
    requires pageNum >= 1 && page.Valid()
    modifies file
    ensures file.bytes == Overwrite(Overwrite(old(file.bytes), SlotOffset(pageNum), Uint64Bytes(page.usedBytes)),
                                    SlotOffset(pageNum) + USED_SIZE, page.data[..])
  {
    var offset := SlotOffset(pageNum);
    file.WriteAt(offset, Uint64Bytes(page.usedBytes));
    file.WriteAt(offset + USED_SIZE, page.data[..]);
  }

  /** FileManager::readPage: load the used count and the data area of the
      page's slot; false when the file ends before the slot does. On failure
      the page's contents are not specified. */
  method ReadPage(file: File, page: Page, pageNum: nat) returns (ok: bool)
    requires pageNum >= 1 && page.Valid()
    modifies page, page.data
    ensures ok <==> SlotReadable(file.bytes, pageNum)
    ensures ok ==> page.usedBytes == SlotUsed(file.bytes, pageNum) as nat
    ensures ok ==> page.data[..] == SlotData(file.bytes, pageNum)
  {
    var offset := SlotOffset(pageNum);
    var got, raw := file.ReadAt(offset, USED_SIZE);
    if !got {
      return false;
    }
    page.usedBytes := Uint64Of(raw);
    got, raw := file.ReadAt(offset + USED_SIZE, PAGE_SIZE);
    if !got {
      return false;
    }
    assert Slot(file.bytes, pageNum)[..USED_SIZE] == file.bytes[offset..offset + USED_SIZE];
    assert SlotData(file.bytes, pageNum) == raw;
    forall j | 0 <= j < PAGE_SIZE {
      page.data[j] := raw[j];
    }
    assert page.data[..] == raw;
    ok := true;
  }

  /** write's memcpy: the row's bytes go from the scratch buffer to the
      page's write pointer, and the page's used count grows by their size. */
  method AppendRow(page: Page, temp: array<byte>, rowSize: nat, ghost cur: TableData, ghost row: Row)
    requires page.Valid() && temp != page.data
    requires rowSize <= temp.Length && temp[..rowSize] == RowImage(row)
    requires page.HasSpace(rowSize)
    requires page.usedBytes == |PageImage(cur)| && page.data[..page.usedBytes] == PageImage(cur)
    modifies page, page.data
    ensures page.Valid()
    ensures page.usedBytes == |PageImage(cur + [row])|
    ensures page.data[..page.usedBytes] == PageImage(cur + [row])
  {
    ghost var before := page.data[..];
    CopyInto(page.data, page.WritePtr(), temp[..rowSize]);
    RowAppended(before, cur, row);
    page.usedBytes := page.usedBytes + rowSize;
    PageImageSnoc(cur, row);
  }

  /** The current page of write holds the rows cur: its used bytes are
      their images back to back. */
  ghost predicate PageHolds(page: Page, cur: TableData)
    reads page, page.data
  {
    page.Valid() && page.usedBytes == |PageImage(cur)| && page.data[..page.usedBytes] == PageImage(cur)
  }

  /** write's flush of the current page: it goes to the next slot as page
      pageCount + 1 and is cleared. */
  method SealPage(file: File, page: Page, pageCount: nat, ghost written: seq<TableData>, ghost cur: TableData)
    returns (count: nat)
    requires PageHolds(page, cur) && pageCount == |written| && HoldsGroups(file.bytes, written)
    modifies file, page
    ensures PageHolds(page, []) && count == |written| + 1 && HoldsGroups(file.bytes, written + [cur])
  {
    count := pageCount + 1;
    PageSealed(file.bytes, written, cur, count, page.usedBytes, page.data[..]);
    WritePage(file, page, count);
    ghost var sealed := file.bytes;
    assert HoldsGroups(sealed, written + [cur]);
    page.Clear();
  }

  /** One round of write's row loop: serialize the row into the scratch
      buffer; skip it when serializeRow returns 0; when it does not fit,
      write the current page as the next page and clear it; then append
      it. In terms of the packing, the sealed pages and the current page
      move on by one row. */
  method StoreRow(file: File, page: Page, temp: array<byte>, row: Row, pageCount: nat,
                  ghost written: seq<TableData>, ghost cur: TableData, ghost rest: TableData)
    returns (count: nat, ghost written': seq<TableData>, ghost cur': TableData)
    requires PageHolds(page, cur) && temp.Length == PAGE_SIZE && temp != page.data
    requires pageCount == |written| && HoldsGroups(file.bytes, written)
    modifies file, page, page.data, temp
    ensures PageHolds(page, cur') && count == |written'| && HoldsGroups(file.bytes, written')
    ensures written' + PackFrom(rest, cur', RowSize) == written + PackFrom([row] + rest, cur, RowSize)
  {
    PageImageSize(cur);
    count, written', cur' := pageCount, written, cur;
    var rowSize := SerializeRow(row, temp, PAGE_SIZE);
    if rowSize == 0 {
      PackSkip(row, rest, cur, RowSize);
      return;
    }
    if page.HasSpace(rowSize) {
      PackAppend(row, rest, cur, RowSize);
    } else {
      PackSeal(written, row, rest, cur, RowSize);
      count := SealPage(file, page, pageCount, written, cur);
      written', cur' := written + [cur], [];
    }
    AppendRow(page, temp, rowSize, cur', row);
    cur' := cur' + [row];
  }

  /** The end of write: the last page when it holds anything, then the header. */
  method FinishWrite(file: File, page: Page, pageCount: nat, ghost written: seq<TableData>, ghost cur: TableData)
    requires PageHolds(page, cur) && pageCount == |written| && HoldsGroups(file.bytes, written)
    modifies file, page
    ensures var all := written + PackFrom([], cur, RowSize);
      HEADER_SIZE <= |file.bytes| && file.bytes[..HEADER_SIZE] == Uint32Bytes(Truncate32(|all|)) && HoldsGroups(file.bytes, all)
  {
    PageImageSize(cur);
    var count := pageCount;
    ghost var all := written;
    if page.usedBytes > 0 {
      count := SealPage(file, page, pageCount, written, cur);
      all := written + [cur];
    }
    assert all == written + PackFrom([], cur, RowSize);
    HeaderWritten(file.bytes, all, Truncate32(count));
    WriteHeader(file, Truncate32(count));
  }

  /** FileManager::write: pack the rows serializeRow accepts into pages,
      write each page when the next row does not fit and the last one at
      the end, then the page count. The model's counter is unbounded; the
      header holds it as a uint32_t. */
  method Write(file: File, tableData: TableData)
    modifies file
    ensures Stores(file.bytes, tableData)
  {
    var page := new Page();
    var temp := new byte[PAGE_SIZE];
    var pageCount: nat := 0;
    ghost var written: seq<TableData> := [];
    ghost var cur: TableData := [];
    for i := 0 to |tableData|
      invariant PageHolds(page, cur) && pageCount == |written| && HoldsGroups(file.bytes, written)
      invariant written + PackFrom(tableData[i..], cur, RowSize) == Groups(tableData)
    {
      DropCons(tableData, i);
      pageCount, written, cur := StoreRow(file, page, temp, tableData[i], pageCount, written, cur, tableData[i + 1..]);
    }
    assert tableData[|tableData|..] == [];
    FinishWrite(file, page, pageCount, written, cur);
  }

  /** One round of read's row loop: deserializeRow's result at offset is
      either the end of the page's rows or the next row. */
  lemma DecodePageStep(buf: seq<byte>, offset: nat, schema: Schema, window: seq<byte>, n: nat, row: Row)
    requires offset <= |buf| && window == buf[offset..]
    requires n == Deserialized(window, schema).end
    requires n > 0 ==> row == Deserialized(window, schema).row
    ensures n == 0 ==> DecodePage(buf[offset..], schema) == []
    ensures n > 0 ==> offset + n <= |buf| && DecodePage(buf[offset..], schema) == [row] + DecodePage(buf[offset + n..], schema)
  {
    assert n > 0 ==> buf[offset..][n..] == buf[offset + n..];
  }

  /** One round of read's row loop: deserializeRow on the used bytes from
      offset on, which yields either the end of the page's rows or the
      next row and its length. */
  method ReadRowAt(page: Page, schema: Schema, offset: nat, ghost buf: seq<byte>) returns (n: nat, row: Row)
    requires page.Valid() && buf == page.data[..page.usedBytes] && offset < page.usedBytes
    ensures n == 0 ==> DecodePage(buf[offset..], schema) == []
    ensures n > 0 ==> offset + n <= |buf| && DecodePage(buf[offset..], schema) == [row] + DecodePage(buf[offset + n..], schema)
  {
    n, row := DeserializeRow(page.data, page.ReadPtr(offset), page.usedBytes - offset, schema);
    DecodePageStep(buf, offset, schema, page.data[offset..offset + (page.usedBytes - offset)], n, row);
  }

  /** read's row loop over one page: deserialize rows from the used bytes
      until deserializeRow returns 0 or the used bytes are consumed. */
  method ReadRows(page: Page, schema: Schema) returns (rows: TableData)
    requires page.Valid()
    ensures rows == DecodePage(page.data[..page.usedBytes], schema)
  {
    ghost var buf := page.data[..page.usedBytes];
    rows := [];
    var offset: nat := 0;
    while offset < page.usedBytes
      invariant offset <= page.usedBytes
      invariant rows + DecodePage(buf[offset..], schema) == DecodePage(buf, schema)
      decreases page.usedBytes - offset
    {
      var bytesRead, row := ReadRowAt(page, schema, offset, buf);
      if bytesRead == 0 {
        break;
      }
      ConcatShift(rows, row, DecodePage(buf[offset..], schema), DecodePage(buf[offset + bytesRead..], schema), DecodePage(buf, schema));
      rows := rows + [row];
      offset := offset + bytesRead;
    }
    assert buf[page.usedBytes..] == [];
  }

  /** One round of read's page loop: a fresh page, loaded with readPage and
      decoded when that succeeds; no rows when it does not. */
  method ReadPageRows(file: File, schema: Schema, pageNum: nat) returns (rows: TableData)
    requires pageNum >= 1 && SlotSane(file.bytes, pageNum)
    ensures rows == PageRows(file.bytes, schema, pageNum)
  {
    var page := new Page();
    var ok := ReadPage(file, page, pageNum);
    rows := [];
    if ok {
      rows := ReadRows(page, schema);
    }
  }

  /** read's page loop, with an unbounded page counter: pages 1 to
      pageCount in order, a page readPage cannot load being skipped. */
  method ReadAllPages(file: File, schema: Schema, pageCount: nat) returns (tableData: TableData)
    requires SlotsSane(file.bytes, pageCount)
    ensures tableData == ReadPages(file.bytes, schema, pageCount)
  {
    ghost var b := file.bytes;
    tableData := [];
    var pageNum: nat := 1;
    while pageNum <= pageCount
      invariant 1 <= pageNum <= pageCount + 1
      invariant SlotsSane(b, pageNum - 1)
      invariant tableData == ReadPages(b, schema, pageNum - 1)
      decreases pageCount + 1 - pageNum
    {
      SaneUpTo(b, pageCount, pageNum);
      ReadPagesNext(b, schema, pageNum);
      var rows := ReadPageRows(file, schema, pageNum);
      tableData := tableData + rows;
      pageNum := pageNum + 1;
    }
  }

  /** FileManager::read: the header's page count, then the rows of pages
      1 to that count in order; nothing when the count is 0. */
  method Read(file: File, schema: Schema) returns (tableData: TableData)
    requires SlotsSane(file.bytes, HeaderCount(file.bytes))
    ensures tableData == ReadImage(file.bytes, schema)
  {
    tableData := [];
    var pageCount := ReadHeader(file);
    if pageCount == 0 {
      return;
    }
    tableData := ReadAllPages(file, schema, pageCount as nat);
  }

  // ---------------------------------------------------------------------
  // read's page loop as written: a uint32_t counter

  /** The page counter after k rounds of read's loop as written: it starts
      at 1 and is incremented as a uint32_t. */
  function CounterAfter(k: nat): uint32
  {
    Truncate32(1 + k)
  }

  /** The loop guard pageNum <= pageCount. */
  predicate LoopContinues(pageNum: uint32, pageCount: uint32)
  {
    pageNum <= pageCount
  }

  /** With a header of 0xFFFFFFFF the guard holds after any number of
      rounds, and after 2^32 - 1 rounds the counter has wrapped to 0: the
      loop as written never ends. */
  lemma CounterNeverExits(k: nat)
    ensures LoopContinues(CounterAfter(k), 0xFFFF_FFFF)
    ensures CounterAfter(0xFFFF_FFFF) == 0
  {
  }
}
