# miniDB storage core in Dafny

This project models the storage core of miniDB, a small single-table
database written in C++:

- the in-memory row store (`RowStore`);
- the fixed-size page (`Page`);
- the file format (`FileManager`).

Each of these is proved against a specification.

A row is a sequence of typed cells. A cell holds a 32-bit int, a double or
a string, and the schema declares one type per column. The modules are:

- `Bytes` (bytes.dfy): the machine widths. It covers `int` as a 32-bit
  two's-complement value, `uint32_t` and `size_t`, their little-endian
  byte images, and the truncation of a string size to `uint32_t`.
- `Seqs` (seqs.dfy): order-preserving filtering and concatenation of
  sequences, as used by `select`, `deleteWhere` and the page packing.
- `Types` (types.dfy): column types, fields, rows, schemas, and when a row
  conforms to a schema.
- `Pages` (page.dfy): the `Page` struct as a class. It holds a 4096-byte
  array and a `usedBytes` cursor, with `hasSpace`, `getWritePtr`,
  `getReadPtr` and `clear`.
- `Storage` (storage.dfy): the file as a growable byte sequence. A write
  overwrites at an offset and zero-fills any gap. A read succeeds exactly
  when all the requested bytes are there.
- `RowCodec` (row_codec.dfy): `serializeRow` and `deserializeRow`.
  - As methods, these are loops over fields that write into or read from a
    buffer.
  - They are specified by pure functions: `Serialized`, `DecodeFields` and
    `Deserialized`.
  - The round trip between them is proved.
- `Packing` (packing.dfy): the greedy page packing of `write`, stated over
  item sizes alone.
- `FileManager` (file_manager.dfy): the file layout.
  - A 4-byte page count, then page n in a slot at 4100 + (n - 1) * 4104,
    holding an 8-byte used count and the 4096 data bytes.
  - `writeHeader`/`readHeader`, `writePage`/`readPage`, `write` and `read`.
  - The persistence round trip: reading what `write` stored gives back the
    rows `serializeRow` accepts, in their original order.
- `Store` (row_store.dfy): `RowStore` as a class whose `tableData` field
  the methods update. It has `validateRow`, `insert`, `getRow`, `select`,
  `update`, `updateWhere`, `deleteRow`, `deleteWhere`, `loadData`, `clear`
  and `rowCount`.

**Open question: `validateRow`.** The switch in `validateRow`
(src/rowStore.cpp:11-20) has no `break`, so each case falls through into
the checks of the cases after it:

- an INT column must also hold a double and a string;
- a DOUBLE column must also hold a string.

A cell holds only one alternative. So, as written, only rows of an
all-STRING schema can ever be accepted (`Store.ValidAsWrittenIff`). The
unit tests expect the opposite. They insert `{1, "Alice", 95.5}` under an
(INT, STRING, DOUBLE) schema and expect success (tests/test_rowstore.cpp:11).
`Store.TestRowRejected` shows the code refuses that row.

The model keeps the behaviour of the code. Every store operation that
validates uses `Store.ValidAsWritten`. Whether the fall-through is intended
is left open.

## Model

| member | source | states |
|---|---|---|
| Bytes.Truncate32IsMod | src/fileManager.cpp:34 | A string size stored as `uint32_t` is the size modulo 2^32. |
| Bytes.LittleEndianRoundTrip | src/fileManager.cpp:82-83 | Reading back the n little-endian bytes of a number below 256^n gives that number. |
| Bytes.LittleEndianInjective | src/fileManager.cpp:82-83 | Two byte strings of the same width that decode to the same number are equal. |
| Bytes.Uint32Of | src/fileManager.cpp:106-115 | The count decoded from four bytes re-encodes to exactly those bytes. |
| Bytes.Uint64Of | src/fileManager.cpp:130 | The used count decoded from eight bytes re-encodes to exactly those bytes. |
| Bytes.Uint32RoundTrip | src/fileManager.cpp:100-115 | A `uint32_t` written as four bytes reads back unchanged. |
| Bytes.Uint64RoundTrip | src/fileManager.cpp:117-137 | A `size_t` used count written as eight bytes reads back unchanged. |
| Bytes.Int32Bits | src/fileManager.cpp:22-23 | The four bytes memcpy copies out of an `int` hold the unsigned value congruent to it modulo 2^32. |
| Bytes.Int32FromBits | src/fileManager.cpp:66-67 | The `int` read from four bytes is the one whose two's-complement pattern they hold. |
| Bytes.Int32BitsRoundTrip | src/fileManager.cpp:22-23 | An `int` copied into four bytes and copied back out (line 67) is the same `int`. |
| Bytes.SplicedParts | src/fileManager.cpp:23 | After a memcpy at an offset, the bytes before and after the copied range are unchanged and the range holds the source. |
| Bytes.SplicedTwice | src/fileManager.cpp:39-42 | Two memcpys at consecutive offsets equal one memcpy of the concatenation. |
| Pages.Page.constructor | include/Page.hpp:8-10 | A new page has a 4096-byte area and nothing in use. |
| Pages.Page.HasSpace | include/Page.hpp:12-14 | On a valid page, `hasSpace(n)` holds exactly when n bytes copied at the write position stay inside the 4096-byte data area. |
| Pages.Page.WritePtr | include/Page.hpp:16-18 | On a valid page, the bytes from the write position to the end of the data area are exactly the free capacity, 4096 - `used_bytes`. |
| Pages.Page.ReadPtr | include/Page.hpp:20-22 | For an offset within the used bytes, the `used_bytes - offset` bytes handed on from the read position end exactly at the end of the used bytes, inside the data area. |
| Pages.Page.Clear | include/Page.hpp:24-26 | `clear` resets `used_bytes` to 0 and leaves the data bytes untouched. |
| Storage.Overwrite | src/fileManager.cpp:120-122 | After a write at an offset, the written bytes are there and every other byte is as before, with any gap zero-filled. |
| Storage.OverwriteFrame | src/fileManager.cpp:117-123 | A write leaves every range it does not cover unchanged. |
| Storage.OverwriteReadBack | src/fileManager.cpp:117-137 | Reading back the range just written gives the written bytes. |
| Storage.File.constructor | src/fileManager.cpp:139 | The stream handed to `write` and `read`: a file whose bytes are exactly the given contents. |
| Storage.File.WriteAt | src/fileManager.cpp:120-122 | Seek-and-write overwrites the file bytes at the offset. |
| Storage.File.ReadAt | src/fileManager.cpp:128-134 | Seek-and-read of n bytes succeeds iff all n bytes exist, and then yields them. |
| RowCodec.Serialized | src/fileManager.cpp:8-47 | The encoder's output never exceeds the buffer size. |
| RowCodec.EncodeField | src/fileManager.cpp:19-43 | One field takes 4 bytes as an int, 8 as a double, and 4 plus its stored length as a string. |
| RowCodec.RowEncodingConcat | src/fileManager.cpp:19-44 | Fields are encoded independently and in order: the encoding of a concatenation is the concatenation of the encodings. |
| RowCodec.RowEncodingPrefix | src/fileManager.cpp:19-44 | The encoding of the first k fields is a prefix of the row's encoding. |
| RowCodec.RowEncodingSnoc | src/fileManager.cpp:19-44 | Encoding one more field appends exactly that field's bytes. |
| RowCodec.EncodedSizeIsLength | src/fileManager.cpp:17-46 | The encoding is 4 bytes per int, 8 per double and 4 + length per string; a non-empty row has a non-empty encoding. |
| RowCodec.SerializedSize | src/fileManager.cpp:13-46 | serializeRow returns non-zero iff the buffer size is positive, the row is non-empty, no string's stored length exceeds `PAGE_SIZE` and the sum of field sizes fits; the result is then that sum. |
| RowCodec.CopyInto | src/fileManager.cpp:39-42 | A memcpy into the buffer places the source at the offset and changes nothing else. |
| RowCodec.PutField | src/fileManager.cpp:20-43 | One field is written iff it fits (and a string's stored length is at most `PAGE_SIZE`); the offset then advances by its size and the buffer holds its bytes; otherwise the buffer is unchanged. |
| RowCodec.SerializeRow | src/fileManager.cpp:8-47 | serializeRow returns 0 for a null buffer; otherwise it returns the length of the row's encoding (0 when it cannot encode), the buffer starts with that encoding, and nothing past `bufferSize` is touched. |
| RowCodec.SerializeFails | src/fileManager.cpp:21-37 | A field that would overflow the buffer, or a string longer than `PAGE_SIZE`, makes the whole result 0. |
| RowCodec.DecodeField | src/fileManager.cpp:63-93 | A decoded field ends past its start and within the buffer, and has the column's declared type. |
| RowCodec.DecodeFields | src/fileManager.cpp:62-95 | Decoded columns never extend past the buffer; a non-empty schema consumes at least one byte. |
| RowCodec.Deserialized | src/fileManager.cpp:49-98 | deserializeRow never consumes more than `bufferSize` bytes. |
| RowCodec.DecodedRowConforms | src/fileManager.cpp:62-95 | A successfully decoded row conforms to the schema. |
| RowCodec.DeserializedConforms | src/fileManager.cpp:55-97 | When deserializeRow returns non-zero, the row has one field per column, each of the declared type. |
| RowCodec.DecodeFailurePersists | src/fileManager.cpp:65-86 | Once a column fails to decode, the whole row fails. |
| RowCodec.LongStoredLengthRejected | src/fileManager.cpp:80-86 | A STRING column whose stored length is over `PAGE_SIZE` makes deserializeRow return 0 for the whole row. |
| RowCodec.DecodeFieldsStep | src/fileManager.cpp:62-95 | Decoding one more column either fails or appends that column's field and moves the offset to its end. |
| RowCodec.DecodeFieldsExtend | src/fileManager.cpp:62-95 | A successful decode of the next column extends the decoded prefix by that field. |
| RowCodec.GetField | src/fileManager.cpp:63-93 | One column's case of deserializeRow succeeds exactly when the field specification does and yields its field and end. |
| RowCodec.DeserializeRow | src/fileManager.cpp:49-98 | deserializeRow returns 0 for a null buffer; otherwise it returns the decoded length and, when non-zero, the decoded row. |
| RowCodec.DecodeFieldRoundTrip | src/fileManager.cpp:62-95 | A field's encoding decodes back to that field under its column type, ending right after it. |
| RowCodec.FieldDecodesAfter | src/fileManager.cpp:62-95 | A field encoded after a prefix decodes at the prefix's length. |
| RowCodec.DecodePrefixRoundTrip | src/fileManager.cpp:62-95 | The first k columns decode to the first k fields of any conforming row whose encoding prefix the buffer starts with. |
| RowCodec.RowRoundTrip | src/fileManager.cpp:8-98 | For a conforming row that serializeRow accepts, deserializeRow on its bytes (with anything after them) returns the same length and the same row. |
| RowCodec.DecodeFieldOnPrefix | src/fileManager.cpp:65-86 | Decoding a field reads only the bytes it consumes: the result is the same on any longer buffer. |
| RowCodec.DecodeFieldsOnPrefix | src/fileManager.cpp:62-95 | A row decoded from a prefix decodes the same from the whole buffer. |
| RowCodec.TruncatedRowRejected | src/fileManager.cpp:65-86 | Every strict prefix of an encoded row is rejected with 0. |
| RowCodec.LongStringTruncated | src/fileManager.cpp:34-41 | A string of 2^32 + 1 bytes is stored with length 1 and its first byte, and reads back as that one-byte string. |
| RowCodec.SerializedChecked | src/fileManager.cpp:33-37 | The length check applied to the string's full size, before the cut to `uint32_t`: whatever it accepts has every string size below 2^32 and equals what serializeRow produces. |
| RowCodec.CheckedRowRoundTrip | src/fileManager.cpp:32-42 | With the full size checked, every conforming row the encoder accepts decodes back to itself with its length, whatever follows, with no string bound left to the caller. |
| Packing.UsedSnoc | src/fileManager.cpp:160-161 | Appending an item adds its size to the page's used bytes. |
| Packing.PackFrom | src/fileManager.cpp:146-167 | write's packing: a row of size 0 is skipped, a row that fits joins the current page, a row that does not seals the page and starts the next, and a non-empty last page is sealed; it seals at most one page per row plus the last. |
| Packing.PackSkip | src/fileManager.cpp:149-152 | A row of size 0 is skipped and changes nothing. |
| Packing.PackAppend | src/fileManager.cpp:154-161 | A row that fits joins the current page. |
| Packing.PackSeal | src/fileManager.cpp:154-161 | A row that does not fit seals the current page and starts the next one. |
| Packing.FlattenSkipStep | src/fileManager.cpp:149-152 | A skipped row leaves the packed rows as those of the remaining rows. |
| Packing.FlattenAppendStep | src/fileManager.cpp:154-161 | A row the current page takes follows its rows in the packed order. |
| Packing.FlattenSealStep | src/fileManager.cpp:154-161 | A sealed page's rows precede the row that starts the next page. |
| Packing.PackFlatten | src/fileManager.cpp:146-167 | The pages, in order, hold exactly the rows with a non-zero size, each once and in their original order: no row is split or reordered, and only rows serializeRow rejects are dropped. |
| Packing.PackFits | src/fileManager.cpp:154-167 | Every written page has `0 < used_bytes <= PAGE_SIZE`. |
| Packing.PackCount | src/fileManager.cpp:146-167 | There are no more pages than stored rows. |
| Seqs.Filter | src/rowStore.cpp:72-82 | A selection is never longer than the table. |
| Seqs.FilterConcat | src/rowStore.cpp:75-79 | Filtering keeps relative order: filtering a concatenation filters each part. |
| Seqs.FilterMembers | src/rowStore.cpp:75-79 | A row is selected iff it is in the table and satisfies the predicate. |
| Seqs.FilterPartition | src/rowStore.cpp:125-134 | The rows kept and the rows removed together account for the whole table. |
| Seqs.FlattenConcat | src/fileManager.cpp:146-167 | The rows of two runs of pages are the rows of the first run, then those of the second. |
| Seqs.FlattenMembers | src/fileManager.cpp:146-167 | A row on any page is among the rows of all pages. |
| FileManager.SlotOffset | src/fileManager.cpp:118 | By definition page n is stored at 4100 + (n - 1) * 4104, a slot of 8 + 4096 bytes; the contract states that no slot starts before the end of the header's page-sized area. |
| FileManager.SlotsDisjoint | src/fileManager.cpp:117-126 | Slots lie past the 4-byte header, and the slot of an earlier page ends before that of a later one starts: slots never overlap each other or the header. |
| FileManager.ShortHeaderReadsNothing | src/fileManager.cpp:106-115 | A file too short to hold the header reads as an empty table. |
| FileManager.UnreadablePageEmpty | src/fileManager.cpp:184-190 | A page readPage cannot load contributes no rows. |
| FileManager.ShortFileTail | src/fileManager.cpp:184-190 | Once a page cannot be loaded for lack of bytes, no later page adds rows either. |
| FileManager.PageImageSnoc | src/fileManager.cpp:160-161 | A page's used bytes grow by exactly the appended row's bytes. |
| FileManager.PageImageSize | src/fileManager.cpp:160-161 | A page's used count is the sum of its rows' serialized sizes. |
| FileManager.GroupsShape | src/fileManager.cpp:146-167 | The pages write stores hold exactly the encodable rows in order; each uses between 1 and 4096 bytes; there are no more pages than such rows. |
| FileManager.DecodePageRoundTrip | src/fileManager.cpp:192-208 | Decoding a page's used bytes row after row gives back the rows packed into it. |
| FileManager.SlotContents | src/fileManager.cpp:125-137 | A slot that holds a page is readable, and gives back that page's used count and bytes. |
| FileManager.PageRowsRoundTrip | src/fileManager.cpp:185-208 | The rows read from a slot holding a page are the rows that page was packed with. |
| FileManager.ReadPages | src/fileManager.cpp:184-209 | The rows of pages 1 to k, in page order, a failed page adding none; every row read conforms to the schema. |
| FileManager.ReadPagesRoundTrip | src/fileManager.cpp:184-209 | Reading pages 1 to k gives their rows in page order. |
| FileManager.StoredPageRoundTrip | src/fileManager.cpp:117-137 | Each page write stores reads back as its packed rows. |
| FileManager.PersistenceRoundTrip | src/fileManager.cpp:139-210 | For conforming rows, reading the file write produced gives the rows serializeRow accepts, in order. |
| FileManager.HeaderWritten | src/fileManager.cpp:100-104 | Writing the header sets the first four bytes to the count and leaves every page slot intact. |
| FileManager.SlotWrittenFrame | src/fileManager.cpp:117-123 | Writing page n leaves every earlier slot's bytes unchanged. |
| FileManager.SlotWritten | src/fileManager.cpp:117-123 | After writePage, slot n holds the used count and the page's used bytes. |
| FileManager.EarlierSlotsKept | src/fileManager.cpp:154-158 | Sealing the next page keeps all earlier pages in their slots. |
| FileManager.HoldsSnoc | src/fileManager.cpp:154-158 | Once its slot holds it, the new page joins the written pages. |
| FileManager.PageSealed | src/fileManager.cpp:154-158 | Writing the current page into the next slot extends the written pages by it. |
| FileManager.RowAppended | src/fileManager.cpp:160-161 | Copying a row at the write position extends the page's used bytes by that row's bytes. |
| FileManager.WriteHeader | src/fileManager.cpp:100-104 | writeHeader overwrites the first four bytes with the count. |
| FileManager.HeaderCount | src/fileManager.cpp:106-115 | The count readHeader returns: the number whose four bytes start the file, or 0 when the file is shorter than four bytes. |
| FileManager.ReadHeader | src/fileManager.cpp:106-115 | readHeader gives the first four bytes as a count, or 0 when the file is shorter. |
| FileManager.HeaderRoundTrip | src/fileManager.cpp:100-115 | readHeader after writeHeader returns the written count. |
| FileManager.WritePage | src/fileManager.cpp:117-123 | writePage stores the used count and all 4096 data bytes at the page's slot. |
| FileManager.ReadPage | src/fileManager.cpp:125-137 | readPage succeeds iff the whole slot is in the file; it then loads the slot's used count and data. |
| FileManager.AppendRow | src/fileManager.cpp:160-161 | Appending a serialized row extends the page image by that row and keeps the page within its size. |
| FileManager.SealPage | src/fileManager.cpp:154-158 | Sealing writes the current page as the next page, counts it and leaves an empty page. |
| FileManager.StoreRow | src/fileManager.cpp:146-162 | One round of write's loop advances the written pages and the current page exactly as the packing specification does for that row. |
| FileManager.FinishWrite | src/fileManager.cpp:164-169 | The last page is written when it holds anything, and the header then holds the number of pages. |
| FileManager.Write | src/fileManager.cpp:139-172 | After write, the header holds the page count (as a `uint32_t`) and slot k holds the k-th page of the packing. |
| FileManager.DecodePage | src/fileManager.cpp:192-208 | The rows decoded from a page's used bytes, one after another until deserializeRow returns 0; there are no more of them than bytes, and each conforms to the schema. |
| FileManager.DecodePageStep | src/fileManager.cpp:194-207 | One deserializeRow call on a page either ends its rows or yields the next row and where the rest starts. |
| FileManager.ReadRowAt | src/fileManager.cpp:195-204 | One round of the row loop yields the end of the page's rows or the next row and its length. |
| FileManager.ReadRows | src/fileManager.cpp:192-208 | The row loop yields the page's rows, decoded one after another until a 0 or the end of the used bytes. |
| FileManager.ReadPageRows | src/fileManager.cpp:185-190 | One page round yields that page's rows, or none when readPage fails. |
| FileManager.ReadAllPages | src/fileManager.cpp:184-209 | The page loop yields the rows of pages 1 to the count, in page order; failed pages add none; the loop terminates. |
| FileManager.Read | src/fileManager.cpp:174-210 | read yields the rows of pages 1 to the header count, in page order, and nothing when the count is 0 or the header is missing. |
| FileManager.CounterNeverExits | src/fileManager.cpp:184 | With a header count of 0xFFFFFFFF, the `uint32_t` page counter satisfies the loop guard after any number of rounds and wraps to 0. |
| Store.ColumnAccepts | src/rowStore.cpp:11-20 | One column of the switch as written, with its fall-through: it accepts a field iff the column is STRING and the field holds a string. |
| Store.ValidAsWritten | src/rowStore.cpp:7-25 | validateRow as written: the length check, then every column through the fall-through switch; whatever the schema, an accepted row conforms to it. |
| Store.ValidAsWrittenIff | src/rowStore.cpp:7-25 | validateRow accepts exactly the conforming rows of all-STRING schemas. |
| Store.LengthMismatchRejected | src/rowStore.cpp:8 | A row whose length differs from the schema's is refused. |
| Store.TestRowRejected | src/rowStore.cpp:10-24 | The unit tests' row (1, "Alice", 95.5) conforms to its schema but is refused. |
| Store.UpdatedRows | src/rowStore.cpp:103-111 | updateWhere keeps the table's length. |
| Store.UpdateCountBound | src/rowStore.cpp:97-114 | updateWhere never reports more rows than satisfy the predicate. |
| Store.UpdateKeepsValid | src/rowStore.cpp:103-111 | A table of accepted rows stays so under updateWhere. |
| Store.UpdateNoMatch | src/rowStore.cpp:97-114 | When no row satisfies the predicate, updateWhere changes nothing and reports 0. |
| Store.UpdateStep | src/rowStore.cpp:106-109 | Each position adds one to the count exactly when it is replaced. |
| Store.UpdateInPlace | src/rowStore.cpp:103-109 | Assigning the updated row at position i extends the updated prefix by one and leaves the rest original. |
| Store.RemoveAt | src/rowStore.cpp:121 | Erasing position i shortens the table by one; earlier rows stay and later rows move down by one. |
| Store.DeletedNoneMatch | src/rowStore.cpp:125-134 | After deleteWhere no remaining row satisfies the predicate. |
| Store.DeleteWhereSplits | src/rowStore.cpp:125-134 | deleteWhere keeps exactly the rows the predicate rejects; selected and kept rows together are the whole table. |
| Store.RowStore.constructor | src/rowStore.cpp:5 | A new store has the given schema and no rows. |
| Store.RowStore.ValidateRow | src/rowStore.cpp:7-25 | The length check, then the fall-through switch per column, accepts exactly the rows `ValidAsWritten` describes. |
| Store.RowStore.LoadData | src/rowStore.cpp:35-37 | loadData replaces the contents wholesale, unchecked. |
| Store.RowStore.Clear | src/rowStore.cpp:39-41 | clear empties the table. |
| Store.RowStore.Insert | src/rowStore.cpp:56-63 | insert returns true iff validateRow accepts the row; it then appends it, so getRow at the old row count gives it and every earlier index gives what it gave before; otherwise the table is unchanged. |
| Store.RowStore.GetRow | src/rowStore.cpp:65-70 | getRow(i) is nothing exactly when i is at or past the row count, and row i otherwise. What it returns after each mutator is stated in the contracts of Insert, Update and DeleteRow. |
| Store.RowStore.Select | src/rowStore.cpp:72-82 | select returns exactly the rows satisfying the predicate, in table order, without changing the store. |
| Store.RowStore.Update | src/rowStore.cpp:84-95 | update succeeds iff the index is in range and the row is accepted; then getRow at that index gives the new row and every other index gives what it gave before; otherwise nothing changes. |
| Store.RowStore.UpdateAt | src/rowStore.cpp:104-110 | One round of updateWhere replaces the row iff it satisfies the predicate and its update is accepted. |
| Store.RowStore.UpdateWhere | src/rowStore.cpp:97-114 | Row j becomes f(row j) exactly when p holds of it and validateRow accepts the result; other rows and the length are unchanged; the count is the number of replaced rows. |
| Store.RowStore.DeleteRow | src/rowStore.cpp:116-123 | deleteRow succeeds iff the index is in range; then the count drops by one, getRow below the index is unchanged and getRow(j) from the index on gives what getRow(j + 1) gave; otherwise nothing changes. |
| Store.RowStore.DeleteWhere | src/rowStore.cpp:125-134 | deleteWhere leaves exactly the rows the predicate rejects, in order, and returns the number of rows it removed. |

## Left out

- File stream mechanics: stream state flags, `file.clear()`, `flush()` and the open modes are not modelled. The file is a byte sequence, and a read fails exactly when the bytes it asks for are not there.
- The `std::cerr` warnings in write and read: logging only.
- `RowStore::printAll` (console output), `RowStore::getData` (a reference that exposes the table for aliasing), src/table.cpp, include/Table.hpp and src/main.cpp are not part of this model.
- Doubles are kept as their 64-bit patterns and never computed with. The tests' double arithmetic and comparisons are not modelled.
- Predicates and update functions are total, side-effect-free function values. In C++ they could throw (for example `std::get` on the wrong alternative) or have effects.
- The host is assumed little-endian, with a 4-byte `int` and an 8-byte `size_t`.
- Pages.Page.constructor: a new page's data bytes are zero, whereas in C++ they are indeterminate. Only `write` writes them to disk beyond the used count, and `read` never looks at them.
- Bytes past the last page's slot that an earlier, longer table left behind are kept as they are, since `write` does not truncate; `read` ignores them.
- FileManager.Write: the model's page counter is unbounded. The header holds it modulo 2^32. The wrap-around of the C++ `uint32_t` counter after 2^32 pages, which would make writePage compute a slot for page 0, is not modelled. The round trip needs fewer than 2^32 pages.
- FileManager.Read: it requires the used count of every readable slot up to the header count to be at most 4096. The source never checks this and would read past the page otherwise.
- FileManager.ReadAllPages: it uses an unbounded page counter (see Findings).
- FileManager.ReadPage: on failure the page's contents are left unspecified, since read discards the page.
- RowCodec.RowRoundTrip: it needs every string shorter than 2^32 bytes. Longer strings have their stored length truncated to `uint32_t`, as RowCodec.LongStringTruncated shows (see "## Findings"). The model of `write` keeps the encoder as written; RowCodec.SerializedChecked is the corrected check, and it is used only by RowCodec.CheckedRowRoundTrip.
- Store.RowStore.RowCount: it is a plain query for the number of rows, used in the contracts of Insert, GetRow and DeleteRow. It has no contract of its own.
- Store.RowStore.DeleteWhere: `std::remove_if` is modelled by its result, an order-preserving filter, rather than by its element moves.
- Crash consistency and concurrent access to the file are not modelled.

## Findings

| source | as written | input that shows it | evidently intended | confidence | as-written member | corrected member |
|---|---|---|---|---|---|---|
| src/fileManager.cpp:184 | read's page loop uses a `uint32_t` counter with the guard `pageNum <= pageCount`. | A file whose first four bytes are all 0xFF (header 0xFFFFFFFF): after page 0xFFFFFFFF the counter wraps to 0, the guard still holds, and the loop never ends. | Visit pages 1 to pageCount once each and stop. | not executed | FileManager.CounterNeverExits | FileManager.ReadAllPages |
| src/fileManager.cpp:34-37 | serializeRow stores a string's size as `uint32_t len = s.size()` and applies the `len > PAGE_SIZE` check to that cut value only. | A string of 2^32 + 1 bytes: `len` is 1, the check passes, and the row is stored and read back as the string's first byte. | Reject any string longer than `PAGE_SIZE`, as the comment beside the length check says, so that every accepted row reads back unchanged. | not executed | RowCodec.LongStringTruncated | RowCodec.CheckedRowRoundTrip |
